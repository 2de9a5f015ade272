/** Packed bit vectors: bit i is bit i % 8 of byte i / 8, least significant first. */
module BitVector {
  import opened Arithmetic
  import opened Bits

  function BitAt(b: nat, k: nat): bool { if k == 0 then b % 2 == 1 else BitAt(b / 2, k - 1) }

  function SetAt(b: nat, k: nat): nat {
    if k == 0 then (if b % 2 == 1 then b else b + 1) else b % 2 + 2 * SetAt(b / 2, k - 1)
  }

  function ClearAt(b: nat, k: nat): nat {
    if k == 0 then (if b % 2 == 1 then b - 1 else b) else b % 2 + 2 * ClearAt(b / 2, k - 1)
  }

  lemma {:induction false} SetAtBelow(b: nat, k: nat, w: nat)
    requires k < w && b < Pow2(w)
    ensures SetAt(b, k) < Pow2(w)
    decreases k
  {
    assert Pow2(w) == 2 * Pow2(w - 1);
    if k > 0 {
      assert b / 2 < Pow2(w - 1);
      SetAtBelow(b / 2, k - 1, w - 1);
      assert SetAt(b, k) == b % 2 + 2 * SetAt(b / 2, k - 1);
      hide Pow2, SetAt;
    } else {
      hide Pow2;
      assert b < 2 * Pow2(w - 1);
    }
  }

  lemma {:induction false} ClearAtBelow(b: nat, k: nat)
    ensures ClearAt(b, k) <= b
    decreases k
  {
    if k > 0 { ClearAtBelow(b / 2, k - 1); }
  }

  lemma {:induction false} BitAfterSet(b: nat, k: nat, j: nat)
    ensures BitAt(SetAt(b, k), j) == (j == k || BitAt(b, j))
    decreases k
  {
    if k > 0 && j > 0 { BitAfterSet(b / 2, k - 1, j - 1); }
  }

  lemma {:induction false} BitAfterClear(b: nat, k: nat, j: nat)
    ensures BitAt(ClearAt(b, k), j) == (j != k && BitAt(b, j))
    decreases k
  {
    if k > 0 && j > 0 { BitAfterClear(b / 2, k - 1, j - 1); }
  }

  lemma {:induction false} BitAtIs(b: nat, k: nat)
    ensures Pow2(k) > 0 && (BitAt(b, k) <==> b / Pow2(k) % 2 == 1)
    decreases k
  {
    if k > 0 {
      BitAtIs(b / 2, k - 1);
      HalfOf(b, Pow2(k - 1));
    }
  }

  lemma HalfOf(b: nat, p: nat)
    requires p > 0
    ensures b / (2 * p) == b / 2 / p
  {
    var q, r := b / 2 / p, b / 2 % p;
    DivMod(b / 2, p);
    assert b == (2 * p) * q + (2 * r + b % 2);
    DivModUnique(b, 2 * p, q, 2 * r + b % 2);
  }

  predicate BitGet(s: seq<byte>, which: nat)
    requires which < 8 * |s|
  {
    BitAt(s[which / 8], which % 8)
  }

  /** Eight bits to a byte, the least significant one first. */
  lemma BitGetIs(s: seq<byte>, which: nat)
    requires which < 8 * |s|
    ensures Pow2(which % 8) > 0 && (BitGet(s, which) <==> s[which / 8] as nat / Pow2(which % 8) % 2 == 1)
  {
    BitAtIs(s[which / 8], which % 8);
  }

  function BitSet(s: seq<byte>, which: nat): (r: seq<byte>)
    requires which < 8 * |s|
    ensures |r| == |s|
    ensures forall j :: 0 <= j < 8 * |s| ==> BitGet(r, j) == (j == which || BitGet(s, j))
  {
    hide BitAt, SetAt;
    SetFits(s[which / 8], which % 8);
    var r := s[which / 8 := SetAt(s[which / 8], which % 8)];
    assert forall j :: 0 <= j < 8 * |s| ==> BitGet(r, j) == (j == which || BitGet(s, j)) by {
      forall j | 0 <= j < 8 * |s|
        ensures BitGet(r, j) == (j == which || BitGet(s, j))
      {
        BitAfterSet(s[which / 8], which % 8, j % 8);
      }
    }
    r
  }

  lemma SetFits(b: byte, k: nat)
    requires k < 8
    ensures SetAt(b, k) < 256
  {
    assert Pow2(8) == 256;
    SetAtBelow(b, k, 8);
  }

  function BitClear(s: seq<byte>, which: nat): (r: seq<byte>)
    requires which < 8 * |s|
    ensures |r| == |s|
    ensures forall j :: 0 <= j < 8 * |s| ==> BitGet(r, j) == (j != which && BitGet(s, j))
  {
    hide BitAt, ClearAt;
    ClearAtBelow(s[which / 8], which % 8);
    var r := s[which / 8 := ClearAt(s[which / 8], which % 8)];
    assert forall j :: 0 <= j < 8 * |s| ==> BitGet(r, j) == (j != which && BitGet(s, j)) by {
      forall j | 0 <= j < 8 * |s|
        ensures BitGet(r, j) == (j != which && BitGet(s, j))
      {
        BitAfterClear(s[which / 8], which % 8, j % 8);
      }
    }
    r
  }

  /** No bit of a zeroed vector is set. */
  lemma {:induction false} ZeroBit(k: nat)
    ensures !BitAt(0, k)
  {
    if k > 0 { ZeroBit(k - 1); }
  }
}
