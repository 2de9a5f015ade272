/** Exclusive-or parity over the blocks of one slice. */
module Parity {
  import opened Bits

  type Block = seq<byte>

  /** Bytes i of the first k blocks, leaving out block skip. */
  function XorTo(g: seq<Block>, i: nat, k: nat, skip: nat): byte
    requires k <= |g| && forall j :: 0 <= j < k ==> i < |g[j]|
  {
    if k == 0 then 0
    else if k - 1 == skip then XorTo(g, i, k - 1, skip)
    else XorByte(XorTo(g, i, k - 1, skip), g[k - 1][i])
  }

  ghost predicate Even(g: seq<Block>, bs: nat) {
    forall j :: 0 <= j < |g| ==> |g[j]| == bs
  }

  /** Every byte position cancels over the whole slice. */
  ghost predicate Cancels(g: seq<Block>, bs: nat)
    requires Even(g, bs)
  {
    forall i :: 0 <= i < bs ==> XorTo(g, i, |g|, |g|) == 0
  }

  function XorOthers(g: seq<Block>, bs: nat, skip: nat): (b: Block)
    requires Even(g, bs)
    ensures |b| == bs
  {
    seq(bs, i requires 0 <= i < bs => XorTo(g, i, |g|, skip))
  }

  /** Adding block f back in. */
  lemma {:induction false} XorToWhole(g: seq<Block>, bs: nat, i: nat, k: nat, f: nat)
    requires Even(g, bs) && i < bs && k <= |g| && f < |g|
    ensures XorTo(g, i, k, |g|) == if f < k then XorByte(XorTo(g, i, k, f), g[f][i]) else XorTo(g, i, k, f)
  {
    hide Xor;
    if k > 0 {
      XorToWhole(g, bs, i, k - 1, f);
      if f < k - 1 {
        var a, b, c := XorTo(g, i, k - 1, f), g[f][i], g[k - 1][i];
        XorAssoc(a, b, c);
        XorComm(b, c);
        XorAssoc(a, c, b);
      }
    }
  }

  /** In a slice that cancels, each block is the exclusive or of the others. */
  lemma OthersRebuild(g: seq<Block>, bs: nat, f: nat)
    requires Even(g, bs) && Cancels(g, bs) && f < |g|
    ensures XorOthers(g, bs, f) == g[f]
  {
    hide Xor;
    forall i | 0 <= i < bs
      ensures XorTo(g, i, |g|, f) == g[f][i]
    {
      XorToWhole(g, bs, i, |g|, f);
      XorIsZero(XorTo(g, i, |g|, f), g[f][i]);
    }
  }

  /** The rebuilt block does not depend on what stood in its place. */
  lemma {:induction false} XorToIgnores(g: seq<Block>, bs: nat, i: nat, k: nat, f: nat, b: Block)
    requires Even(g, bs) && |b| == bs && i < bs && k <= |g| && f < |g|
    ensures XorTo(g[f := b], i, k, f) == XorTo(g, i, k, f)
  {
    hide Xor;
    if k > 0 { XorToIgnores(g, bs, i, k - 1, f, b); }
  }

  lemma OthersIgnore(g: seq<Block>, bs: nat, f: nat, b: Block)
    requires Even(g, bs) && |b| == bs && f < |g|
    ensures Even(g[f := b], bs)
    ensures XorOthers(g[f := b], bs, f) == XorOthers(g, bs, f)
  {
    forall i | 0 <= i < bs
      ensures XorTo(g[f := b], i, |g|, f) == XorTo(g, i, |g|, f)
    {
      XorToIgnores(g, bs, i, |g|, f, b);
    }
  }

  /** Replacing one block changes each byte sum by the old and new byte. */
  lemma XorToReplaced(g: seq<Block>, bs: nat, i: nat, f: nat, b: Block)
    requires Even(g, bs) && |b| == bs && i < bs && f < |g|
    ensures XorTo(g[f := b], i, |g|, |g|) == XorByte(XorTo(g, i, |g|, |g|), XorByte(b[i], g[f][i]))
  {
    hide Xor;
    var g' := g[f := b];
    XorToWhole(g, bs, i, |g|, f);
    XorToWhole(g', bs, i, |g|, f);
    XorToIgnores(g, bs, i, |g|, f, b);
    var s := XorTo(g, i, |g|, f);
    XorExchange(s, g[f][i], b[i], g[f][i]);
    XorSelf(g[f][i]);
    XorZero(Xor(s, b[i]));
  }

  /** The parity byte after replacing data byte o by n. */
  function NewParity(p: Block, n: Block, o: Block): (r: Block)
    requires |p| == |n| == |o|
    ensures |r| == |p|
  {
    seq(|p|, i requires 0 <= i < |p| => XorByte(p[i], XorByte(n[i], o[i])))
  }

  /** The slice after writing block d and adjusting parity block p. */
  ghost function Rewritten(g: seq<Block>, bs: nat, d: nat, p: nat, from: Block): (r: seq<Block>)
    requires Even(g, bs) && |from| == bs && d < |g| && p < |g| && d != p
    ensures |r| == |g| && Even(r, bs)
  {
    g[p := NewParity(g[p], from, g[d])][d := from]
  }

  /** The incremental parity update keeps the slice cancelling. */
  lemma RewrittenCancels(g: seq<Block>, bs: nat, d: nat, p: nat, from: Block)
    requires Even(g, bs) && Cancels(g, bs) && |from| == bs && d < |g| && p < |g| && d != p
    ensures Cancels(Rewritten(g, bs, d, p, from), bs)
  {
    hide Xor;
    var q := NewParity(g[p], from, g[d]);
    var g1 := g[p := q];
    var g2 := g1[d := from];
    forall i | 0 <= i < bs
      ensures XorTo(g2, i, |g|, |g|) == 0
    {
      XorToReplaced(g, bs, i, p, q);
      XorToReplaced(g1, bs, i, d, from);
      var x, delta := g[p][i], XorByte(from[i], g[d][i]);
      XorComm(x, delta);
      XorCancel(delta, x);
      XorSelf(delta);
      XorZero(delta);
    }
  }

  lemma {:induction false} ZeroBlocksCancel(g: seq<Block>, bs: nat, i: nat, k: nat)
    requires Even(g, bs) && i < bs && k <= |g|
    requires forall j :: 0 <= j < |g| ==> g[j][i] == 0
    ensures XorTo(g, i, k, |g|) == 0
  {
    if k > 0 { ZeroBlocksCancel(g, bs, i, k - 1); }
  }
}
