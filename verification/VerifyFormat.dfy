/** What the verification layer leaves on its base, byte by byte. */
module VerifyFormat {
  import opened Bits
  import opened Crc
  import opened Devices
  import opened Parity
  import opened VerifyLayout

  /** The number in the four bytes of h from offset o, most significant byte first. */
  function NumberAt(h: Block, o: nat): nat
    requires o + 4 <= |h|
  {
    h[o] as nat * 0x100_0000 + h[o + 1] as nat * 0x1_0000 + h[o + 2] as nat * 0x100 + h[o + 3] as nat
  }

  function Value(w: word): nat { w as nat }

  lemma FieldNumber(h: Block, o: nat)
    requires 4 * o + 4 <= |h|
    ensures Value(UnpackBe32(Field(h, o))) == NumberAt(h, 4 * o)
  {
    hide UnpackBe32;
    UnpackBe32Is(Field(h, o));
  }

  /** The number determines the bytes. */
  lemma SameBytes(h: Block, o: nat, p: seq<byte>)
    requires o + 4 <= |h| && |p| == 4 && NumberAt(h, o) == NumberAt(p, 0)
    ensures h[o..o + 4] == p
  {
    var a, b: nat := h[o] as nat * 0x100 + h[o + 1] as nat, p[0] as nat * 0x100 + p[1] as nat;
    LastDigit(a * 0x100 + h[o + 2] as nat, h[o + 3], b * 0x100 + p[2] as nat, p[3]);
    LastDigit(a, h[o + 2], b, p[2]);
    LastDigit(h[o] as nat, h[o + 1], p[0] as nat, p[1]);
  }

  lemma LastDigit(a: nat, x: byte, b: nat, y: byte)
    requires a * 0x100 + x as nat == b * 0x100 + y as nat
    ensures a == b && x == y
  {}

  lemma PackedNumber(w: word)
    ensures NumberAt(PackBe32(w), 0) == Value(w)
  {
    hide PackBe32;
    PackBe32Is(w);
  }

  lemma NumberIs(h: Block, o: nat, w: word)
    requires 4 * o + 4 <= |h|
    ensures NumberAt(h, 4 * o) == Value(w) <==> UnpackBe32(Field(h, o)) == w
  {
    hide UnpackBe32, PackBe32, NumberAt, Value;
    FieldNumber(h, o);
    PackedNumber(w);
    UnpackPack(w);
    if NumberAt(h, 4 * o) == Value(w) { SameBytes(h, 4 * o, PackBe32(w)); }
  }

  lemma MatchesNumber(h: Block, o: nat, zc: word, data: Block)
    requires 4 * o + 4 <= |h|
    ensures Matches(h, o, zc, data) <==> NumberAt(h, 4 * o) == Value(XorWord(Crc32(data), zc))
  {
    hide Crc32, UnpackBe32, XorWord, NumberAt, Value;
    NumberIs(h, o, XorWord(Crc32(data), zc));
    XorWordCancel(UnpackBe32(Field(h, o)), zc);
    XorWordCancel(Crc32(data), zc);
  }

  // Every h + 1 base blocks are one of checksums and h of data, h being what fits into a block.

  lemma Places(h: nat, w: nat)
    requires h > 0
    ensures HashAddr(h, w) == w / h * (h + 1) && DataAddr(h, w) == w + w / h + 1
  {}

  /** After a write that has succeeded: the checksum of a block, less that of a zero block, is stored
      big-endian in the order of the data. */
  lemma WriteLands(d: Dev, w: nat, from: Block, d': Dev, h: nat, hash: nat, data: nat)
    requires d.cfg.verified && Has(d, w) && |from| == d.cfg.bs && d.cfg.zc == Crc32(Zeros(d.cfg.bs))
    requires Outcome(d, w, from, true, d')
    requires h == d.cfg.bs / 4 > 0 && hash == w / h * (h + 1) && data == w + w / h + 1
    ensures var c, o := d'.base, 4 * (w % h);
      && hash < data < |c| == |d.base| && c[data] == Some(from)
      && c[hash].Some? && o + 4 <= |c[hash].value|
      && NumberAt(c[hash].value, o) == Value(XorWord(Crc32(from), Crc32(Zeros(d.cfg.bs))))
  {
    hide Crc32, Zeros, UnpackBe32, PackBe32, Matches, XorWord, HashCount, NumberAt, HashAddr, DataAddr, Value;
    var o, crc := w % h, XorWord(Crc32(from), d.cfg.zc);
    Places(h, w);
    var before := HashBefore(d, hash);
    var stored := Splice(before, 4 * o, PackBe32(crc));
    FieldSplice(before, o, PackBe32(crc), o);
    UnpackPack(crc);
    NumberIs(stored, o, crc);
  }

  /** Reading a block leaves the checksums it goes with in the cache, where they can be read; dropping
      the cache leaves none. */
  lemma ReadLoads(d: Dev, w: nat, h: nat, hash: nat)
    requires d.cfg.verified && Has(d, w) && h == d.cfg.bs / 4 > 0 && hash == w / h * (h + 1)
    ensures hash < |d.base|
    ensures AfterRead(d, w) == if d.base[hash].None? || d.tag == hash then d
                               else Dev(d.cfg, d.base, d.base[hash].value, hash)
    ensures AfterClear(d) == Dev(d.cfg, d.base, d.hash, 0xffff_ffff_ffff_ffff)
  {
    hide HashCount, HashAddr, DataAddr;
    Places(h, w);
  }

  /** A block shows exactly when it, and the checksums it goes with, can be read and agree. */
  lemma ReadNeeds(d: Dev, w: nat, h: nat, hash: nat, data: nat)
    requires d.cfg.verified && Has(d, w) && d.cfg.zc == Crc32(Zeros(d.cfg.bs))
    requires h == d.cfg.bs / 4 > 0 && hash == w / h * (h + 1) && data == w + w / h + 1
    ensures hash < data < |d.base| && 4 * (w % h) + 4 <= d.cfg.bs
    ensures var sums := if d.tag == hash then Some(d.hash) else d.base[hash];
      && (sums.Some? ==> |sums.value| == d.cfg.bs)
      && ViewIn(d, w) ==
           if && sums.Some? && d.base[data].Some?
              && NumberAt(sums.value, 4 * (w % h)) == Value(XorWord(Crc32(d.base[data].value), Crc32(Zeros(d.cfg.bs))))
           then d.base[data] else None
  {
    hide Crc32, Zeros, Matches, XorWord, HashCount, NumberAt, HashAddr, DataAddr, Value;
    Places(h, w);
    var sums := if d.tag == hash then Some(d.hash) else d.base[hash];
    if sums.Some? && d.base[data].Some? { MatchesNumber(sums.value, w % h, d.cfg.zc, d.base[data].value); }
  }
}
