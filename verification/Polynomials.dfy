/** Polynomials over GF(2^8), lowest coefficient first. */
module Polynomials {
  import opened Bits
  import opened GaloisField
  import opened LinearAlgebra

  function Eval(p: Vec, t: byte): byte {
    if p == [] then 0 else XorByte(p[0], Mul(t, Eval(p[1..], t)))
  }

  /** The quotient of p by X + a. */
  function Quotient(p: Vec, a: byte): (q: Vec)
    ensures |q| == if p == [] then 0 else |p| - 1
  {
    if |p| <= 1 then [] else [Eval(p[1..], a)] + Quotient(p[1..], a)
  }

  /** The product of p and X + a. */
  function TimesRoot(p: Vec, a: byte): (r: Vec)
    ensures |r| == |p| + 1
  {
    if p == [] then [0]
    else
      var rest := TimesRoot(p[1..], a);
      [Mul(a, p[0])] + rest[0 := XorByte(rest[0], p[0])]
  }

  lemma {:induction false} EvalQuotient(p: Vec, a: byte, t: byte)
    ensures Eval(p, t) == XorByte(Mul(XorByte(t, a), Eval(Quotient(p, a), t)), Eval(p, a))
  {
    hide Mul, Xor;
    MulUnits(XorByte(t, a));
    MulUnits(t);
    MulUnits(a);
    if p == [] {
      XorZero(0);
    } else if |p| == 1 {
      assert p[1..] == [];
      XorZero(p[0]);
    } else {
      var p', q' := p[1..], Quotient(p[1..], a);
      var d, e, v := XorByte(t, a), Eval(q', t), Eval(p', a);
      EvalQuotient(p', a, t);
      assert Quotient(p, a)[1..] == q';
      QuotientStep(p[0], d, t, a, e, v);
    }
  }

  /** p0 + t(de + v) = d(v + te) + (p0 + av), where d = t + a. */
  lemma QuotientStep(p0: byte, d: byte, t: byte, a: byte, e: byte, v: byte)
    requires d == XorByte(t, a)
    ensures XorByte(p0, Mul(t, XorByte(Mul(d, e), v)))
         == XorByte(Mul(d, XorByte(v, Mul(t, e))), XorByte(p0, Mul(a, v)))
  {
    hide Mul, Xor;
    MulXorRight(t, Mul(d, e), v);
    MulAssoc(t, d, e);
    MulComm(t, d);
    MulAssoc(d, t, e);
    MulXorRight(d, v, Mul(t, e));
    MulXorLeft(t, a, v);
    var x, y, z := Mul(d, Mul(t, e)), Mul(t, v), Mul(a, v);
    XorExchange(XorByte(y, z), x, p0, z);
    XorComm(y, z);
    XorExchange(z, y, p0, x);
    XorComm(XorByte(y, z), p0);
    XorAssoc(p0, XorByte(y, z), XorByte(x, z));
    XorComm(x, z);
    XorAssoc(XorByte(y, z), z, x);
    XorCancel(y, z);
    XorComm(x, y);
  }

  lemma {:induction false} EvalTimesRoot(p: Vec, a: byte, t: byte)
    ensures Eval(TimesRoot(p, a), t) == Mul(XorByte(t, a), Eval(p, t))
  {
    hide Mul, Xor;
    MulUnits(XorByte(t, a));
    MulUnits(t);
    if p == [] {
      XorZero(0);
      assert TimesRoot(p, a)[1..] == [];
    } else {
      EvalTimesRoot(p[1..], a, t);
      var rest := TimesRoot(p[1..], a);
      var rest' := rest[0 := XorByte(rest[0], p[0])];
      assert TimesRoot(p, a)[1..] == rest';
      assert rest'[1..] == rest[1..];
      TimesRootStep(p[0], t, a, rest[0], Eval(rest[1..], t), Eval(p[1..], t));
    }
  }

  /** If r0 + tr = (t + a)e then ap0 + t((r0 + p0) + tr) = (t + a)(p0 + te). */
  lemma TimesRootStep(p0: byte, t: byte, a: byte, r0: byte, r: byte, e: byte)
    requires XorByte(r0, Mul(t, r)) == Mul(XorByte(t, a), e)
    ensures XorByte(Mul(a, p0), Mul(t, XorByte(XorByte(r0, p0), Mul(t, r))))
         == Mul(XorByte(t, a), XorByte(p0, Mul(t, e)))
  {
    hide Mul, Xor;
    var d := XorByte(t, a);
    SwapLast(r0, p0, Mul(t, r));
    MulXorRight(t, Mul(d, e), p0);
    MulAssoc(t, d, e);
    MulComm(t, d);
    MulAssoc(d, t, e);
    MulXorRight(d, p0, Mul(t, e));
    MulXorLeft(t, a, p0);
    XorComm(Mul(t, Mul(d, e)), Mul(t, p0));
    XorAssoc(Mul(a, p0), Mul(t, p0), Mul(d, Mul(t, e)));
    XorComm(Mul(a, p0), Mul(t, p0));
  }

  lemma {:induction false} QuotientIsZero(p: Vec, a: byte)
    requires p != [] && Eval(p, a) == 0 && IsZero(Quotient(p, a))
    ensures IsZero(p)
  {
    hide Mul, Xor;
    MulUnits(a);
    XorZero(p[0]);
    if |p| == 1 {
      assert p[1..] == [];
    } else {
      assert Quotient(p, a)[0] == 0;
      assert Quotient(p, a)[1..] == Quotient(p[1..], a);
      assert IsZero(Quotient(p, a)[1..]);
      QuotientIsZero(p[1..], a);
      assert p == [p[0]] + p[1..];
    }
  }

  /** The roots of p among the points 0 .. n-1. */
  ghost function Roots(p: Vec, n: nat): set<nat>
    requires n <= 256
  {
    set r | 0 <= r < n && Eval(p, r) == 0
  }

  /** A nonzero polynomial with k coefficients has fewer than k roots. */
  lemma {:induction false} FewRoots(p: Vec, n: nat)
    requires n <= 256 && !IsZero(p)
    ensures |Roots(p, n)| < |p|
    decreases |p|
  {
    hide Mul, Xor, Eval;
    if a :| a in Roots(p, n) {
      if IsZero(Quotient(p, a)) { QuotientIsZero(p, a); }
      FewRoots(Quotient(p, a), n);
      var rest := Roots(Quotient(p, a), n);
      forall r | r in Roots(p, n)
        ensures r in rest + {a}
      {
        EvalQuotient(p, a, r);
        XorZero(Mul(XorByte(r, a), Eval(Quotient(p, a), r)));
        MulNonzero(XorByte(r, a), Eval(Quotient(p, a), r));
        XorIsZero(r, a);
      }
      SubsetSize(Roots(p, n), rest + {a});
    } else {
      assert Roots(p, n) == {};
    }
  }

  lemma SubsetSize<T>(a: set<T>, b: set<T>)
    requires a <= b
    ensures |a| <= |b|
  {
    assert b == a + (b - a);
  }

  /** A monic polynomial vanishing on 0 .. k-1, except possibly at i. */
  ghost function Vanishing(i: nat, k: nat): (p: Vec)
    requires k <= 256
    ensures |p| == if i < k then k else k + 1
  {
    if k == 0 then [1]
    else if k - 1 == i then Vanishing(i, k - 1)
    else TimesRoot(Vanishing(i, k - 1), k - 1)
  }

  lemma {:induction false} VanishingIsMonic(i: nat, k: nat)
    requires k <= 256
    ensures |Vanishing(i, k)| > 0 && Vanishing(i, k)[|Vanishing(i, k)| - 1] == 1
  {
    if k > 0 {
      VanishingIsMonic(i, k - 1);
      if k - 1 != i { TimesRootLast(Vanishing(i, k - 1), k - 1); }
    }
  }

  lemma {:induction false} TimesRootLast(p: Vec, a: byte)
    requires p != []
    ensures TimesRoot(p, a)[|p|] == p[|p| - 1]
  {
    hide Mul, Xor;
    if |p| == 1 {
      assert p[1..] == [];
      XorZero(p[0]);
    } else {
      TimesRootLast(p[1..], a);
    }
  }

  lemma {:induction false} VanishingVanishes(i: nat, k: nat, r: nat)
    requires k <= 256 && r < k && r != i
    ensures Eval(Vanishing(i, k), r) == 0
  {
    hide Mul, Xor, Eval;
    if k - 1 == i {
      VanishingVanishes(i, k - 1, r);
    } else {
      var p := Vanishing(i, k - 1);
      EvalTimesRoot(p, k - 1, r);
      XorSelf(r);
      MulUnits(Eval(p, r));
      MulUnits(XorByte(r, k - 1));
      if r < k - 1 { VanishingVanishes(i, k - 1, r); }
    }
  }
}
