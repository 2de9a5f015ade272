/** Numbers as big-endian byte strings. */
module Endian {
  import opened Arithmetic
  import opened Bits

  function Pow256(n: nat): (p: nat)
    ensures p > 0
  {
    if n == 0 then 1 else 256 * Pow256(n - 1)
  }

  /** The low n bytes of v, most significant first. */
  function Pack(n: nat, v: nat): (s: seq<byte>)
    ensures |s| == n
  {
    if n == 0 then [] else Pack(n - 1, v / 256) + [v % 256]
  }

  function Unpack(s: seq<byte>): nat {
    if s == [] then 0 else Unpack(s[..|s| - 1]) * 256 + s[|s| - 1]
  }

  lemma {:induction false} UnpackPack(n: nat, v: nat)
    ensures Unpack(Pack(n, v)) == v % Pow256(n)
  {
    if n > 0 {
      UnpackPack(n - 1, v / 256);
      var p := Pow256(n - 1);
      assert Pack(n, v)[..n - 1] == Pack(n - 1, v / 256);
      SplitMod(v, p);
    }
  }

  lemma SplitMod(v: nat, p: nat)
    requires p > 0
    ensures v % (256 * p) == v / 256 % p * 256 + v % 256
  {
    var q, r := v / 256 / p, v / 256 % p;
    assert v == 256 * (v / 256) + v % 256;
    assert v / 256 == p * q + r;
    var m := r * 256 + v % 256;
    assert v == (256 * p) * q + m;
    assert m < 256 * p by { assert r + 1 <= p; }
    DivModUnique(v, 256 * p, q, m);
  }

  lemma {:induction false} PackUnpack(s: seq<byte>)
    ensures Pack(|s|, Unpack(s)) == s
  {
    if s != [] {
      var n := |s| - 1;
      PackUnpack(s[..n]);
      assert Unpack(s) / 256 == Unpack(s[..n]) && Unpack(s) % 256 == s[n];
    }
  }

  lemma {:induction false} UnpackSmall(n: nat, v: nat)
    requires v < Pow256(n)
    ensures Unpack(Pack(n, v)) == v
  {
    UnpackPack(n, v);
    DivModUnique(v, Pow256(n), 0, v);
  }

  /** Byte i counts from the most significant one. */
  lemma {:induction false} PackAt(n: nat, v: nat, i: nat)
    requires i < n
    ensures Pack(n, v)[i] == v / Pow256(n - 1 - i) % 256
  {
    if i < n - 1 {
      PackAt(n - 1, v / 256, i);
      DivTwice(v, Pow256(n - 2 - i));
    }
  }

  /** s stands for v, the most significant byte first. */
  ghost predicate IsBigEndian(s: seq<byte>, v: nat) {
    forall i: nat :: i < |s| ==> s[i] == v / Pow256(|s| - 1 - i) % 256
  }

  lemma PackIsBigEndian(n: nat, v: nat)
    ensures IsBigEndian(Pack(n, v), v)
  {
    hide Pack, Pow256;
    forall i: nat | i < n
      ensures Pack(n, v)[i] == v / Pow256(n - 1 - i) % 256
    {
      PackAt(n, v, i);
    }
  }

  lemma UnpackIsBigEndian(s: seq<byte>)
    ensures IsBigEndian(s, Unpack(s)) && Unpack(s) < Pow256(|s|)
  {
    hide IsBigEndian, Unpack;
    PackUnpack(s);
    PackIsBigEndian(|s|, Unpack(s));
    UnpackBelow(s);
  }

  lemma {:induction false} UnpackBelow(s: seq<byte>)
    ensures Unpack(s) < Pow256(|s|)
  {
    if s != [] { UnpackBelow(s[..|s| - 1]); }
  }

  lemma DivTwice(v: nat, p: nat)
    requires p > 0
    ensures v / 256 / p == v / (256 * p)
  {
    var q, r := v / 256 / p, v / 256 % p;
    DivMod(v, 256);
    DivMod(v / 256, p);
    var m := r * 256 + v % 256;
    assert v == (256 * p) * q + m;
    assert m < 256 * p by { assert r + 1 <= p; }
    DivModUnique(v, 256 * p, q, m);
  }

  /** The first byte is the most significant one. */
  lemma {:induction false} UnpackHead(s: seq<byte>)
    requires s != []
    ensures Unpack(s) == s[0] * Pow256(|s| - 1) + Unpack(s[1..])
  {
    var n := |s| - 1;
    if n > 0 {
      UnpackHead(s[..n]);
      assert s[..n][1..] == s[1..][..n - 1] && s[1..][n - 1] == s[n];
      assert s[0] * Pow256(n) == s[0] * Pow256(n - 1) * 256;
    } else {
      assert s[..n] == [] && s[1..] == [];
    }
  }

  /** So that four bytes stand for this number. */
  lemma UnpackFour(s: seq<byte>)
    requires |s| == 4
    ensures Unpack(s)
         == (s[0] as nat) * 0x100_0000 + (s[1] as nat) * 0x1_0000 + (s[2] as nat) * 0x100 + s[3] as nat
  {
    assert Pow256(1) == 0x100 && Pow256(2) == 0x1_0000 && Pow256(3) == 0x100_0000;
    UnpackHead(s);
    UnpackHead(s[1..]);
    UnpackHead(s[2..]);
    UnpackHead(s[3..]);
    assert s[1..][1..] == s[2..] && s[2..][1..] == s[3..] && s[3..][1..] == [];
  }

  /** The loops of the request parser. */
  method PackLoop(n: nat, num: nat) returns (str: seq<byte>)
    ensures str == Pack(n, num)
  {
    str := [];
    var rest: nat := num;
    for i := 0 to n
      invariant Pack(n, num) == Pack(n - i, rest) + str
    {
      str := [rest % 256] + str;
      rest := rest / 256;
    }
  }

  method UnpackLoop(str: seq<byte>) returns (num: nat)
    ensures num == Unpack(str)
  {
    num := 0;
    for i := 0 to |str|
      invariant num == Unpack(str[..i])
    {
      assert str[..i + 1][..i] == str[..i];
      num := num * 256 + str[i];
    }
    assert str[..|str|] == str;
  }
}
