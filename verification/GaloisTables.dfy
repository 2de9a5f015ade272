/** The log and antilog tables, and the arithmetic that reads them. */
module GaloisTables {
  import opened Bits
  import opened GaloisField

  const GF_NW: nat := 256

  datatype Tables = Tables(log: seq<byte>, ilog: seq<byte>) {
    /** What gf_initialize leaves behind: entry k of ilog is x^k, and log undoes it. */
    ghost predicate Valid() {
      && |log| == GF_NW
      && |ilog| == GF_NW
      && forall k :: 0 <= k < ORDER ==> ilog[k] == Exp(k) && log[ilog[k]] == k
    }
  }

  /** log[0] and ilog[255] are never written. */
  method GfInitialize(log: array<byte>, ilog: array<byte>)
    requires log.Length == GF_NW && ilog.Length == GF_NW && log != ilog
    modifies log, ilog
    ensures Tables(log[..], ilog[..]).Valid()
    ensures log[0] == old(log[0]) && ilog[ORDER] == old(ilog[ORDER])
  {
    hide Double, Exp;
    var b := 1;
    ExpSmall();
    for k := 0 to GF_NW - 1
      invariant b == Exp(k)
      invariant forall i :: 0 <= i < k ==> ilog[i] == Exp(i) && log[ilog[i]] == i
      invariant log[0] == old(log[0]) && ilog[ORDER] == old(ilog[ORDER])
    {
      ExpNonzero(k);
      forall i | 0 <= i < k ensures Exp(i) != b {
        if Exp(i) == b { ExpInjective(i, k); }
      }
      log[b] := k;
      ilog[k] := b;
      b := Shifted(b);
      ExpStep(k);
    }
  }

  /** Shift left, and reduce when the degree reaches 8. */
  function Shifted(b: byte): (r: byte)
    ensures r == Double(b)
  {
    if 2 * b / GF_NW % 2 == 1 then
      assert Pow2(8) == 256;
      XorTopBit(2 * b, PRIM_POLY, 8);
      Xor(2 * b, PRIM_POLY)
    else 2 * b
  }

  lemma ExpStep(k: nat)
    ensures Exp(k + 1) == Double(Exp(k))
  {}

  /** The log table inverts the antilog table on every nonzero element. */
  lemma LogOfNonzero(t: Tables, b: byte)
    requires t.Valid() && b != 0
    ensures t.log[b] < ORDER && Exp(t.log[b]) == b && t.ilog[t.log[b]] == b
  {
    hide Exp;
    ExpSurjective(b);
    var k :| 0 <= k < ORDER && Exp(k) == b;
    assert t.ilog[k] == Exp(k);
  }

  function GfAdd(l: byte, r: byte): byte { XorByte(l, r) }

  /** Table lookup computes the polynomial product. */
  function GfMult(t: Tables, l: byte, r: byte): (p: byte)
    requires t.Valid()
    ensures p == Mul(l, r)
  {
    hide Mul, Exp;
    if l == 0 || r == 0 then
      MulNonzero(l, r);
      0
    else
      LogOfNonzero(t, l);
      LogOfNonzero(t, r);
      ExpAdd(t.log[l], t.log[r]);
      var sumLog := (t.log[l] as nat) + t.log[r] as nat;
      if sumLog >= GF_NW - 1 then
        ExpWrap(sumLog);
        t.ilog[sumLog - (GF_NW - 1)]
      else t.ilog[sumLog]
  }

  lemma ExpWrap(k: nat)
    requires k >= ORDER
    ensures Exp(k - ORDER) == Exp(k)
  {
    hide Double, Exp, Mul;
    ExpPeriods();
    ExpAdd(ORDER, k - ORDER);
    MulUnits(Exp(k - ORDER));
  }

  /** Division by zero yields zero; otherwise the quotient is the one that multiplies back. */
  function GfDiv(t: Tables, l: byte, r: byte): (q: byte)
    requires t.Valid()
    ensures if r == 0 then q == 0 else Mul(q, r) == l
  {
    hide Mul, Exp;
    if l == 0 then
      MulNonzero(0, r);
      0
    else if r == 0 then 0
    else
      LogOfNonzero(t, l);
      LogOfNonzero(t, r);
      var diffLog := (t.log[l] as int) - t.log[r] as int;
      if diffLog < 0 then
        ExpAdd(diffLog + ORDER, t.log[r]);
        ExpWrap(t.log[l] + ORDER);
        t.ilog[diffLog + (GF_NW - 1)]
      else
        ExpAdd(diffLog, t.log[r]);
        t.ilog[diffLog]
  }
}
