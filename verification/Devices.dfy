/** Block devices as the layers above see them: a base device whose writes may fail, or the
    CRC verification layer on top of a base device of its own. */
module Devices {
  import opened Bits
  import opened Crc
  import opened Parity
  import opened VerifyLayout

  datatype Option<+T> = None | Some(value: T)

  /** (uint64_t) -1, the tag of an empty cache. */
  const NONE: nat := 0xFFFF_FFFF_FFFF_FFFF

  /** s with the bytes of d written over it from offset off. */
  function Splice<T>(s: seq<T>, off: nat, d: seq<T>): (r: seq<T>)
    requires off + |d| <= |s|
    ensures |r| == |s|
  {
    s[..off] + d + s[off + |d|..]
  }

  // ---- the stored checksums of one hash block

  function Field(h: Block, o: nat): seq<byte>
    requires 4 * o + 4 <= |h|
  {
    h[4 * o..4 * o + 4]
  }

  lemma FieldSplice(h: Block, o: nat, p: seq<byte>, o': nat)
    requires |p| == 4 && 4 * o + 4 <= |h| && 4 * o' + 4 <= |h|
    ensures Field(Splice(h, 4 * o, p), o') == if o == o' then p else Field(h, o')
  {}

  /** The block passes the checksum stored at o; checksums are offset by the one of a zero block. */
  predicate Matches(h: Block, o: nat, zeroCrc: word, data: Block)
    requires 4 * o + 4 <= |h|
  {
    XorWord(UnpackBe32(Field(h, o)), zeroCrc) == Crc32(data)
  }

  lemma StoredMatches(h: Block, o: nat, zeroCrc: word, data: Block)
    requires 4 * o + 4 <= |h|
    ensures Matches(Splice(h, 4 * o, PackBe32(XorWord(Crc32(data), zeroCrc))), o, zeroCrc, data)
  {
    hide Crc32, XorWord, UnpackBe32, PackBe32;
    var stored := XorWord(Crc32(data), zeroCrc);
    FieldSplice(h, o, PackBe32(stored), o);
    UnpackPack(stored);
    XorWordCancel(Crc32(data), zeroCrc);
  }

  // ---- what a verification layer shows, as a function of its state

  type Cells = seq<Option<Block>>

  ghost predicate SizedCells(base: Cells, bs: nat) {
    forall k :: 0 <= k < |base| && base[k].Some? ==> |base[k].value| == bs
  }

  ghost predicate AllReadable(base: Cells) {
    forall k :: 0 <= k < |base| ==> base[k].Some?
  }

  /** tag says which base block the cached block hb stands for, if any. */
  ghost predicate CacheFits(base: Cells, bs: nat, tag: nat, hb: Block) {
    && bs >= 4 && |hb| == bs && 2 <= |base| <= NONE && SizedCells(base, bs)
    && (tag != NONE ==> tag < |base| && IsHashAddr(bs / 4, tag))
  }

  ghost predicate HashesReadable(base: Cells, bs: nat) {
    forall k :: 0 <= k < |base| && IsHashAddr(bs / 4, k) ==> base[k].Some?
  }

  /** The cached hash block is the one on the base, unless that one is lost. */
  ghost predicate CacheTrue(base: Cells, tag: nat, hb: Block) {
    tag < |base| && base[tag].Some? ==> base[tag].value == hb
  }

  function HashSeen(base: Cells, bs: nat, tag: nat, hb: Block, w: nat): (h: Option<Block>)
    requires CacheFits(base, bs, tag, hb) && w < |base| - HashCount(bs / 4, |base|)
    ensures h.Some? ==> |h.value| == bs
  {
    DataAddrInRange(bs / 4, |base|, w);
    if tag == HashAddr(bs / 4, w) then Some(hb) else base[HashAddr(bs / 4, w)]
  }

  /** The data block, if it and its hash block are there and the checksum passes. */
  function Verified(base: Cells, bs: nat, tag: nat, hb: Block, zeroCrc: word, w: nat): (v: Option<Block>)
    requires CacheFits(base, bs, tag, hb) && w < |base| - HashCount(bs / 4, |base|)
    ensures v.Some? ==> |v.value| == bs
  {
    DataAddrInRange(bs / 4, |base|, w);
    var h, data := HashSeen(base, bs, tag, hb, w), base[DataAddr(bs / 4, w)];
    if h.Some? && data.Some? && Matches(h.value, w % (bs / 4), zeroCrc, data.value) then data else None
  }

  /** Block w is refused by the cached hash block but not by the one on the base, which differs
      after a write of it has failed and left the old one. */
  ghost predicate ComesBack(base: Cells, bs: nat, tag: nat, hb: Block, zc: word, w: nat)
    requires bs >= 4 && |hb| == bs && SizedCells(base, bs)
  {
    var h := bs / 4;
    && tag == HashAddr(h, w) < |base| && DataAddr(h, w) < |base|
    && base[tag].Some? && base[DataAddr(h, w)].Some?
    && Matches(base[tag].value, w % h, zc, base[DataAddr(h, w)].value)
    && !Matches(hb, w % h, zc, base[DataAddr(h, w)].value)
  }

  /** Loading another hash block brings back exactly the blocks that the one on the base passes and
      the cached one does not. It hides none when both are the same. */
  lemma LoadKeepsView(base: Cells, bs: nat, tag: nat, hb: Block, zc: word, tag': nat, w: nat)
    requires CacheFits(base, bs, tag, hb) && w < |base| - HashCount(bs / 4, |base|)
    requires tag' < |base| && IsHashAddr(bs / 4, tag') && base[tag'].Some? && tag' != tag
    ensures CacheFits(base, bs, tag', base[tag'].value)
    ensures var v, v' := Verified(base, bs, tag, hb, zc, w), Verified(base, bs, tag', base[tag'].value, zc, w);
      && (v' in {v, None} <==> !ComesBack(base, bs, tag, hb, zc, w))
      && (CacheTrue(base, tag, hb) && (tag < |base| ==> base[tag].Some?) ==> v' == v)
      && (HashAddr(bs / 4, w) != tag ==> v' == v)
  {
    hide Matches;
    DataAddrInRange(bs / 4, |base|, w);
  }

  /** And so does dropping the cached hash block. */
  lemma DropKeepsView(base: Cells, bs: nat, tag: nat, hb: Block, zc: word, w: nat)
    requires CacheFits(base, bs, tag, hb) && w < |base| - HashCount(bs / 4, |base|)
    ensures CacheFits(base, bs, NONE, hb)
    ensures var v, v' := Verified(base, bs, tag, hb, zc, w), Verified(base, bs, NONE, hb, zc, w);
      && (v' in {v, None} <==> !ComesBack(base, bs, tag, hb, zc, w))
      && (CacheTrue(base, tag, hb) && (tag < |base| ==> base[tag].Some?) ==> v' == v)
  {
    hide Matches;
    DataAddrInRange(bs / 4, |base|, w);
  }

  /** Nothing comes back as long as the cache agrees with the base. */
  lemma TrueCacheHoldsBack(base: Cells, bs: nat, tag: nat, hb: Block, zc: word, w: nat)
    requires bs >= 4 && |hb| == bs && SizedCells(base, bs) && CacheTrue(base, tag, hb)
    ensures !ComesBack(base, bs, tag, hb, zc, w)
  {}

  /** Storing a checksum for one block leaves the verdict on every other block alone. */
  lemma StoreKeepsOthers(base: Cells, bs: nat, a: nat, hb: Block, zc: word, which: nat, hb': Block, c: Option<Block>,
                         w: nat)
    requires CacheFits(base, bs, a, hb) && w < |base| - HashCount(bs / 4, |base|)
    requires which < |base| - HashCount(bs / 4, |base|)
    requires a == HashAddr(bs / 4, which) < |base|
    requires |hb'| == bs && (c.Some? ==> |c.value| == bs)
    requires forall o :: 0 <= o < bs / 4 && o != which % (bs / 4) ==> Field(hb', o) == Field(hb, o)
    ensures CacheFits(base[a := c], bs, a, hb')
    ensures w != which ==> Verified(base[a := c], bs, a, hb', zc, w) == Verified(base, bs, a, hb, zc, w)
  {
    hide UnpackBe32, Crc32, XorWord;
    var h := bs / 4;
    DataAddrInRange(h, |base|, w);
    DataAddrInRange(h, |base|, which);
    DataAddrShape(h, w);
    DataAddrShape(h, which);
  }

  lemma FieldsSpliced(h: Block, o: nat, p: seq<byte>, n: nat)
    requires |p| == 4 && 4 * o + 4 <= |h| && 4 * n <= |h|
    ensures forall o' :: 0 <= o' < n && o' != o ==> Field(Splice(h, 4 * o, p), o') == Field(h, o')
  {
    forall o' | 0 <= o' < n && o' != o
      ensures Field(Splice(h, 4 * o, p), o') == Field(h, o')
    {
      FieldSplice(h, o, p, o');
    }
  }

  /** Writing one data block leaves the verdict on every other block alone. */
  lemma DataKeepsOthers(base: Cells, bs: nat, a: nat, hb: Block, zc: word, which: nat, c: Option<Block>, w: nat)
    requires CacheFits(base, bs, a, hb) && w < |base| - HashCount(bs / 4, |base|)
    requires which < |base| - HashCount(bs / 4, |base|)
    requires DataAddr(bs / 4, which) < |base| && (c.Some? ==> |c.value| == bs)
    ensures CacheFits(base[DataAddr(bs / 4, which) := c], bs, a, hb)
    ensures CacheTrue(base, a, hb) ==> CacheTrue(base[DataAddr(bs / 4, which) := c], a, hb)
    ensures w != which ==>
      Verified(base[DataAddr(bs / 4, which) := c], bs, a, hb, zc, w) == Verified(base, bs, a, hb, zc, w)
  {
    hide Matches;
    var h := bs / 4;
    DataAddrInRange(h, |base|, w);
    DataAddrInRange(h, |base|, which);
    if DataAddr(h, w) == DataAddr(h, which) { DataAddrInjective(h, w, which); }
  }

  lemma NotAHash(h: nat, w: nat)
    requires h > 0
    ensures !IsHashAddr(h, DataAddr(h, w))
  {
    DataAddrShape(h, w);
  }

  /** Block w has nothing to show because its hash block cannot be read, and a write to block
      which puts a hash block of zeros in its place, which what the data block holds passes. */
  ghost predicate BringsBack(base: Cells, bs: nat, tag: nat, zc: word, which: nat, w: nat)
    requires bs >= 4
  {
    var h := bs / 4;
    && w != which && HashAddr(h, w) == HashAddr(h, which) < |base| && DataAddr(h, w) < |base|
    && tag != HashAddr(h, which) && base[HashAddr(h, which)].None?
    && base[DataAddr(h, w)].Some? && Crc32(base[DataAddr(h, w)].value) == zc
  }

  /** A hash block of zeros passes exactly the blocks with the checksum of a zero block. */
  lemma ZerosMatch(bs: nat, o: nat, zc: word, data: Block)
    requires 4 * o + 4 <= bs
    ensures Matches(Zeros(bs), o, zc, data) <==> Crc32(data) == zc
  {
    hide Crc32, XorWord, UnpackBe32;
    assert Field(Zeros(bs), o) == [0, 0, 0, 0];
    UnpackZero();
    XorWordComm(0, zc);
    XorWordZero(zc);
  }

  /** What a hash block of zeros in the cache shows of the chunk that had none. */
  lemma ZeroFillShows(base: Cells, bs: nat, tag: nat, hb: Block, zc: word, which: nat, w: nat)
    requires CacheFits(base, bs, tag, hb) && w < |base| - HashCount(bs / 4, |base|)
    requires which < |base| - HashCount(bs / 4, |base|)
    requires tag != HashAddr(bs / 4, which) < |base| && base[HashAddr(bs / 4, which)].None?
    ensures CacheFits(base, bs, HashAddr(bs / 4, which), Zeros(bs))
    ensures var v := Verified(base, bs, tag, hb, zc, w);
      var v' := Verified(base, bs, HashAddr(bs / 4, which), Zeros(bs), zc, w);
      && (w != which ==> (v' in {v, None} <==>
            !BringsBack(base, bs, tag, zc, which, w) && !ComesBack(base, bs, tag, hb, zc, w)))
      && (HashAddr(bs / 4, w) == HashAddr(bs / 4, which) ==> v == None)
  {
    hide Matches, Crc32, Zeros;
    var h := bs / 4;
    DataAddrInRange(h, |base|, w);
    DataAddrInRange(h, |base|, which);
    DataAddrShape(h, which);
    if HashAddr(h, w) == HashAddr(h, which) && base[DataAddr(h, w)].Some? {
      ZerosMatch(bs, w % h, zc, base[DataAddr(h, w)].value);
    }
  }

  /** Under a hash block that stands for from, a data block that was not written shows exactly
      when it has the same checksum. */
  ghost predicate StaleUnder(base: Cells, bs: nat, which: nat, from: Block)
    requires bs >= 4
  {
    var a := DataAddr(bs / 4, which);
    a < |base| && base[a].Some? && base[a].value != from && Crc32(base[a].value) == Crc32(from)
  }

  // ---- a device as a value

  datatype Config = Config(bs: nat, blockCount: nat, verified: bool, reliable: bool, erasing: bool, keeping: bool,
                           hashSafe: bool, zc: word)

  datatype Dev = Dev(cfg: Config, base: Cells, hash: Block, tag: nat)

  /** What went wrong with a write: the write of the hash block or that of the data, which lost the
      block or left the old one. */
  datatype Fault = Fine | HashLost | HashLeft | DataLost | DataLeft

  ghost predicate CanHappen(c: Config, f: Fault) {
    f.Fine? || (&& !c.reliable
                && (f.HashLost? || f.DataLost? ==> !c.keeping)
                && (f.HashLeft? || f.DataLeft? ==> !c.erasing)
                && (f.HashLost? || f.HashLeft? ==> c.verified && !c.hashSafe))
  }

  /** The device has a block w. */
  ghost predicate Has(d: Dev, w: nat) {
    var h := d.cfg.bs / 4;
    if d.cfg.verified then
      && CacheFits(d.base, d.cfg.bs, d.tag, d.hash) && HashAddr(h, w) < |d.base| && DataAddr(h, w) < |d.base|
      && w < |d.base| - HashCount(h, |d.base|)
    else w < |d.base|
  }

  ghost function ViewIn(d: Dev, w: nat): Option<Block> {
    if !Has(d, w) then None
    else if d.cfg.verified then Verified(d.base, d.cfg.bs, d.tag, d.hash, d.cfg.zc, w)
    else d.base[w]
  }

  ghost function AfterRead(d: Dev, w: nat): Dev
    requires Has(d, w)
  {
    if !d.cfg.verified then d
    else
      var a := HashAddr(d.cfg.bs / 4, w);
      if d.tag != a && d.base[a].Some? then d.(hash := d.base[a].value, tag := a) else d
  }

  ghost function AfterClear(d: Dev): Dev { if d.cfg.verified then d.(tag := NONE) else d }

  /** The hash block a write starts from. */
  ghost function HashBefore(d: Dev, a: nat): (h: Block)
    requires a < |d.base|
    ensures SizedCells(d.base, d.cfg.bs) && |d.hash| == d.cfg.bs ==> |h| == d.cfg.bs
  {
    if d.tag == a then d.hash else if d.base[a].Some? then d.base[a].value else Zeros(d.cfg.bs)
  }

  /** What a write amounts to, given what went wrong. */
  ghost function AfterWrite(d: Dev, w: nat, from: Block, f: Fault): Dev
    requires Has(d, w)
  {
    if !d.cfg.verified then
      d.(base := match f
                 case Fine => d.base[w := Some(from)]
                 case DataLost => d.base[w := None]
                 case _ => d.base)
    else
      var h := d.cfg.bs / 4;
      var a, da := HashAddr(h, w), DataAddr(h, w);
      var stored := Splice(HashBefore(d, a), 4 * (w % h), PackBe32(XorWord(Crc32(from), d.cfg.zc)));
      var base1 := match f
        case HashLost => d.base[a := None]
        case HashLeft => d.base
        case _ => d.base[a := Some(stored)];
      var base2 := match f
        case Fine => base1[da := Some(from)]
        case DataLost => base1[da := None]
        case _ => base1;
      d.(base := base2, hash := stored, tag := a)
  }

  /** The state after is that of a write with some fault that can happen. */
  ghost predicate Outcome(d: Dev, w: nat, from: Block, ok: bool, d': Dev)
    requires Has(d, w)
  {
    exists f :: CanHappen(d.cfg, f) && ok == f.Fine? && d' == AfterWrite(d, w, from, f)
  }

  lemma HappenedOnce(d: Dev, w: nat, from: Block, f: Fault, d': Dev)
    requires Has(d, w) && CanHappen(d.cfg, f) && d' == AfterWrite(d, w, from, f)
    ensures Outcome(d, w, from, f.Fine?, d')
  {
    hide AfterWrite, Has;
  }

  /** A write to which shows block w again, whatever was last written there. */
  ghost predicate RevivesIn(d: Dev, which: nat, w: nat) {
    && d.cfg.verified && CacheFits(d.base, d.cfg.bs, d.tag, d.hash) && w != which
    && (|| BringsBack(d.base, d.cfg.bs, d.tag, d.cfg.zc, which, w)
        || (d.tag != HashAddr(d.cfg.bs / 4, which) && ComesBack(d.base, d.cfg.bs, d.tag, d.hash, d.cfg.zc, w)))
  }

  /** Getting hold of the hash block of which revives just these. */
  lemma LoadShows(d: Dev, which: nat, w: nat)
    requires d.cfg.verified && CacheFits(d.base, d.cfg.bs, d.tag, d.hash) && HashAddr(d.cfg.bs / 4, which) < |d.base|
    requires w < |d.base| - HashCount(d.cfg.bs / 4, |d.base|) && which < |d.base| - HashCount(d.cfg.bs / 4, |d.base|)
    ensures var a := HashAddr(d.cfg.bs / 4, which);
      && CacheFits(d.base, d.cfg.bs, a, HashBefore(d, a))
      && var v := Verified(d.base, d.cfg.bs, d.tag, d.hash, d.cfg.zc, w);
         var v' := Verified(d.base, d.cfg.bs, a, HashBefore(d, a), d.cfg.zc, w);
      && (w != which ==> (v' in {v, None} <==> !RevivesIn(d, which, w)))
      && ((&& CacheTrue(d.base, d.tag, d.hash) && (d.tag < |d.base| ==> d.base[d.tag].Some?)
           && (d.tag == a || d.base[a].Some?)) ==> v' == v)
  {
    hide Matches, Crc32, Zeros, BringsBack, ComesBack, Verified, HashCount;
    var h := d.cfg.bs / 4;
    var a := HashAddr(h, which);
    DataAddrShape(h, which);
    NothingToBringBack(d.base, d.cfg.bs, a, d.cfg.zc, which, w);
    if d.tag != a {
      if d.base[a].Some? {
        NothingToBringBack(d.base, d.cfg.bs, d.tag, d.cfg.zc, which, w);
        LoadKeepsView(d.base, d.cfg.bs, d.tag, d.hash, d.cfg.zc, a, w);
      } else {
        ZeroFillShows(d.base, d.cfg.bs, d.tag, d.hash, d.cfg.zc, which, w);
      }
    }
  }

  /** A read of which does. */
  ghost predicate ResurfacesIn(d: Dev, which: nat, w: nat) {
    && d.cfg.verified && CacheFits(d.base, d.cfg.bs, d.tag, d.hash)
    && var a := HashAddr(d.cfg.bs / 4, which);
    && d.tag != a < |d.base| && d.base[a].Some?
    && ComesBack(d.base, d.cfg.bs, d.tag, d.hash, d.cfg.zc, w)
  }

  /** Dropping the cached hash block does. */
  ghost predicate SurfacesIn(d: Dev, w: nat) {
    && d.cfg.verified && CacheFits(d.base, d.cfg.bs, d.tag, d.hash)
    && ComesBack(d.base, d.cfg.bs, d.tag, d.hash, d.cfg.zc, w)
  }

  /** What a failed write of from has left under block which passes for what was written. */
  ghost predicate StaleIn(d: Dev, which: nat, from: Block) {
    if d.cfg.verified then d.cfg.bs >= 4 && StaleUnder(d.base, d.cfg.bs, which, from)
    else which < |d.base| && d.base[which] !in {Some(from), None}
  }

  /** Every hash block can be read, and the cached one is that of the base. */
  ghost predicate Clean(d: Dev) {
    d.cfg.verified ==>
      CacheFits(d.base, d.cfg.bs, d.tag, d.hash) && CacheTrue(d.base, d.tag, d.hash) && HashesReadable(d.base, d.cfg.bs)
  }

  /** A write that succeeds, or loses its data block, keeps a device clean and brings nothing back. */
  lemma WriteKeepsClean(d: Dev, w: nat, from: Block, f: Fault, t: nat)
    requires Clean(d) && Has(d, w) && |from| == d.cfg.bs && f in {Fine, DataLost}
    ensures Clean(AfterWrite(d, w, from, f)) && AfterWrite(d, w, from, f).cfg == d.cfg
    ensures f.DataLost? ==> !StaleIn(AfterWrite(d, w, from, f), w, from)
    ensures !RevivesIn(d, w, t)
  {
    hide Crc32, XorWord, PackBe32, HashCount, Matches, Zeros;
    if d.cfg.verified {
      var h := d.cfg.bs / 4;
      DataAddrShape(h, w);
      NotAHash(h, w);
      TrueCacheHoldsBack(d.base, d.cfg.bs, d.tag, d.hash, d.cfg.zc, t);
      NothingToBringBack(d.base, d.cfg.bs, d.tag, d.cfg.zc, w, t);
    }
  }

  /** Neither does a read, nor dropping the cached hash block. */
  lemma TouchKeepsClean(d: Dev, w: nat, t: nat)
    requires Clean(d)
    ensures Has(d, w) ==> Clean(AfterRead(d, w)) && AfterRead(d, w).cfg == d.cfg && !ResurfacesIn(d, w, t)
    ensures Clean(AfterClear(d)) && AfterClear(d).cfg == d.cfg && !SurfacesIn(d, t)
  {
    hide HashCount, Matches;
    if d.cfg.verified {
      TrueCacheHoldsBack(d.base, d.cfg.bs, d.tag, d.hash, d.cfg.zc, t);
      DataAddrShape(d.cfg.bs / 4, w);
    }
  }

  function Put(base: Cells, a: nat, v: Block, ok: bool, left: bool): Cells
    requires a < |base|
  {
    if ok then base[a := Some(v)] else if left then base else base[a := None]
  }

  method CopyTo(into: array<byte>, off: nat, data: Block)
    requires off + |data| <= into.Length
    modifies into
    ensures into[..off] == old(into[..off]) && into[off + |data|..] == old(into[off + |data|..])
    ensures into[off..off + |data|] == data
  {
    for i := 0 to |data|
      invariant into[..off] == old(into[..off]) && into[off + |data|..] == old(into[off + |data|..])
      invariant into[off..off + i] == data[..i]
    {
      into[off + i] := data[i];
    }
    assert data[..|data|] == data;
  }

  class Bdev {
    const blockSize: nat
    const blockCount: nat
    /** Whether this is the verification layer; otherwise base is the device itself. */
    const verified: bool
    /** Whether I/O on the base never fails. */
    const reliable: bool
    /** Whether a write that fails loses the block; otherwise the old one may still be there. */
    const erasing: bool
    /** Whether a write that fails leaves the old block. */
    const keeping: bool
    /** Whether I/O on hash blocks never fails. */
    const hashSafe: bool
    const zeroCrc: word
    var base: seq<Option<Block>>
    var hashBlock: Block
    var whichHashBlock: nat

    ghost function St(): (d: Dev)
      reads this
      ensures d.cfg.bs == blockSize && d.cfg.blockCount == blockCount
    {
      Dev(Config(blockSize, blockCount, verified, reliable, erasing, keeping, hashSafe, zeroCrc),
          base, hashBlock, whichHashBlock)
    }

    ghost predicate WellFormed()
      reads this
    {
      && blockSize > 0
      && SizedCells(base, blockSize)
      && (reliable ==> AllReadable(base))
      && if verified then
           && blockSize >= 4 && 2 <= |base| <= NONE && |hashBlock| == blockSize
           && blockCount == |base| - HashCount(blockSize / 4, |base|)
           && zeroCrc == Crc32(Zeros(blockSize))
           && (hashSafe ==> HashesReadable(base, blockSize))
         else
           blockCount == |base|
    }

    /** The cached hash block is the one on the base, unless that one is lost. */
    ghost predicate Coherent()
      reads this
    {
      verified ==> CacheTrue(base, whichHashBlock, hashBlock)
    }

    ghost predicate Valid()
      reads this
    {
      && WellFormed()
      && (verified ==> CacheFits(base, blockSize, whichHashBlock, hashBlock))
      && (Erases() ==> Coherent())
    }

    /** No write that fails leaves the old block. */
    predicate Erases() { erasing || reliable }

    /** A block changes only when it is written. */
    predicate Separate() { verified ==> reliable || (erasing && hashSafe) }

    /** Moreover a write that fails loses the block. */
    predicate Steady() { Separate() && Erases() }

    /** What a read of block w would return: its contents, or nothing. */
    function View(w: nat): (v: Option<Block>)
      reads this
      requires Valid() && w < blockCount
      ensures v.Some? ==> |v.value| == blockSize
    {
      if verified then Verified(base, blockSize, whichHashBlock, hashBlock, zeroCrc, w) else base[w]
    }

    /** A write to which would show block w again, whatever was last written there. */
    ghost predicate Revives(which: nat, w: nat)
      reads this
    {
      RevivesIn(St(), which, w)
    }

    ghost predicate Resurfaces(which: nat, w: nat)
      reads this
    {
      ResurfacesIn(St(), which, w)
    }

    ghost predicate Surfaces(w: nat)
      reads this
    {
      SurfacesIn(St(), w)
    }

    /** Both the block and the hash block for it have reached the base. */
    ghost predicate OnBase(which: nat, from: Block)
      reads this
    {
      var h := blockSize / 4;
      && h > 0 && HashAddr(h, which) < |base| && base[HashAddr(h, which)] == Some(hashBlock)
      && DataAddr(h, which) < |base| && base[DataAddr(h, which)] == Some(from)
    }

    /** What the failed write of from left under block which passes for what was written. */
    ghost predicate Stale(which: nat, from: Block)
      reads this
    {
      StaleIn(St(), which, from)
    }

    lemma HasBlock(w: nat)
      requires Valid() && w < blockCount
      ensures Has(St(), w) && View(w) == ViewIn(St(), w)
    {
      hide Verified, Crc32, Zeros, HashCount, HashAddr, DataAddr, IsHashAddr;
      if verified { DataAddrInRange(blockSize / 4, |base|, w); }
    }

    // ---- base device I/O

    /** A failed read leaves the caller's buffer alone. */
    method BaseRead(a: nat, buf: Block) returns (ok: bool, data: Block)
      requires WellFormed() && a < |base|
      ensures ok == base[a].Some?
      ensures data == if ok then base[a].value else buf
    {
      ok := base[a].Some?;
      data := if ok then base[a].value else buf;
    }

    /** A failed write loses the block, or leaves it. */
    method BaseWrite(a: nat, from: Block) returns (ok: bool, ghost left: bool)
      requires WellFormed() && a < |base| && |from| == blockSize
      modifies this`base
      ensures WellFormed()
      ensures base == if ok then old(base)[a := Some(from)] else if left then old(base) else old(base)[a := None]
      ensures left ==> !ok && !erasing
      ensures !ok && !left ==> !keeping
      ensures reliable || (verified && hashSafe && IsHashAddr(blockSize / 4, a)) ==> ok
    {
      hide HashCount, Crc32, Zeros, IsHashAddr;
      ok := *;
      var stays := *;
      stays := (stays || keeping) && !erasing;
      ok := ok || reliable || (verified && hashSafe && IsHashAddr(blockSize / 4, a)) || (erasing && keeping);
      left := !ok && stays;
      if ok {
        base := base[a := Some(from)];
      } else if !stays {
        base := base[a := None];
      }
    }

    // ---- the verification layer

    /** Bring the hash block at a into the cache. */
    method LoadHash(a: nat) returns (ok: bool)
      requires Valid() && verified && a < |base| && IsHashAddr(blockSize / 4, a)
      modifies this`hashBlock, this`whichHashBlock
      ensures Valid()
      ensures ok == (a == old(whichHashBlock) || base[a].Some?)
      ensures ok ==> whichHashBlock == a
      ensures !ok ==> whichHashBlock == old(whichHashBlock) && hashBlock == old(hashBlock)
      ensures ok && a == old(whichHashBlock) ==> hashBlock == old(hashBlock)
      ensures ok && a != old(whichHashBlock) ==> Some(hashBlock) == base[a]
      ensures old(Coherent()) ==> Coherent()
    {
      hide HashCount, Crc32, Zeros, IsHashAddr, AllReadable, HashesReadable;
      ok := true;
      if whichHashBlock != a {
        ok, hashBlock := BaseRead(a, hashBlock);
        if ok { whichHashBlock := a; }
      }
    }

    /** The cached hash block can be read back from the base. */
    lemma SafeHash()
      requires Valid() && verified && Separate()
      ensures Coherent() && (whichHashBlock < |base| ==> base[whichHashBlock].Some?)
    {
      hide IsHashAddr, Crc32, Zeros;
    }

    lemma SafeAt(a: nat)
      requires Valid() && verified && Separate() && a < |base| && IsHashAddr(blockSize / 4, a)
      ensures base[a].Some?
    {
      hide IsHashAddr, Crc32, Zeros;
    }

    method VerifyRead(which: nat, buf: Block) returns (ok: bool, data: Block)
      requires Valid() && verified && which < blockCount && |buf| == blockSize
      modifies this`hashBlock, this`whichHashBlock
      ensures Valid() && |data| == blockSize
      ensures ok == old(View(which)).Some? && View(which) == old(View(which))
      ensures ok ==> Some(data) == old(View(which))
      ensures Has(old(St()), which) && St() == AfterRead(old(St()), which) && (old(Coherent()) ==> Coherent())
      ensures forall w: nat :: w < blockCount ==> (View(w) in {old(View(w)), None} <==> !old(Resurfaces(which, w)))
      ensures Separate() ==> forall w :: 0 <= w < blockCount ==> View(w) == old(View(w))
    {
      hide Matches, Crc32, XorWord, Zeros, HashCount, HashAddr, DataAddr, IsHashAddr, AllReadable, HashesReadable;
      hide ComesBack;
      HasBlock(which);
      var h := blockSize / 4;
      var neededHashBlock, neededDataBlock, interior := HashAddr(h, which), DataAddr(h, which), which % h;
      DataAddrInRange(h, |base|, which);
      ghost var tag, hb := whichHashBlock, hashBlock;
      if Separate() { SafeHash(); }
      ok := LoadHash(neededHashBlock);
      if ok && tag != whichHashBlock {
        forall w: nat | w < blockCount
          ensures View(w) in {old(View(w)), None} <==> !old(Resurfaces(which, w))
          ensures Separate() || w == which ==> View(w) == old(View(w))
        {
          LoadKeepsView(base, blockSize, tag, hb, zeroCrc, neededHashBlock, w);
        }
      }
      data := buf;
      if !ok { return; }
      assert HashSeen(base, blockSize, tag, hb, which) == Some(hashBlock);
      var neededCrc := XorWord(UnpackBe32(Field(hashBlock, interior)), zeroCrc);
      ok, data := BaseRead(neededDataBlock, buf);
      if !ok { return; }
      var readCrc := CalcCrc32(data);
      ok := MatchesCrc(neededCrc, readCrc, hashBlock, interior, data);
    }

    method MatchesCrc(neededCrc: word, readCrc: word, ghost h: Block, ghost o: nat, ghost data: Block)
        returns (ok: bool)
      requires 4 * o + 4 <= |h|
      requires neededCrc == XorWord(UnpackBe32(Field(h, o)), zeroCrc) && readCrc == Crc32(data)
      ensures ok == Matches(h, o, zeroCrc, data)
    {
      hide Crc32, XorWord;
      ok := neededCrc == readCrc;
    }

    /** Put a zero block in the cache for the hash block of which when it cannot be read. */
    method LoadHashOrZero(which: nat) returns (loaded: bool)
      requires Valid() && verified && which < blockCount && HashAddr(blockSize / 4, which) < |base|
      modifies this`hashBlock, this`whichHashBlock
      ensures Valid() && whichHashBlock == HashAddr(blockSize / 4, which)
      ensures loaded == (whichHashBlock == old(whichHashBlock) || base[whichHashBlock].Some?)
      ensures !loaded ==> hashBlock == Zeros(blockSize)
      ensures hashBlock == HashBefore(old(St()), whichHashBlock)
      ensures old(Coherent()) ==> Coherent()
      ensures forall w: nat :: w < blockCount && w != which ==>
        (View(w) in {old(View(w)), None} <==> !old(Revives(which, w)))
      ensures Separate() ==> loaded && forall w :: 0 <= w < blockCount ==> View(w) == old(View(w))
    {
      hide Matches, Crc32, Zeros, BringsBack, ComesBack, Verified, HashCount, AllReadable, HashesReadable, RevivesIn;
      var h := blockSize / 4;
      var a := HashAddr(h, which);
      DataAddrShape(h, which);
      ghost var d := St();
      if Separate() {
        SafeHash();
        SafeAt(a);
      }
      loaded := LoadHash(a);
      if !loaded {
        hashBlock := Zeros(blockSize);
        whichHashBlock := a;
      }
      forall w: nat | w < blockCount
        ensures w != which ==> (View(w) in {old(View(w)), None} <==> !old(Revives(which, w)))
        ensures Separate() ==> View(w) == old(View(w))
      {
        LoadShows(d, which, w);
      }
    }

    /** Writes hash block, then data. Block by block: what each of the others shows afterwards, and
        what a failed write leaves. */
    method VerifyWrite(which: nat, from: Block) returns (ok: bool, ghost fault: Fault)
      requires Valid() && verified && which < blockCount && |from| == blockSize
      modifies this
      ensures Valid() && |base| == old(|base|)
      ensures ok == fault.Fine? && CanHappen(St().cfg, fault)
      ensures Has(old(St()), which) && St() == AfterWrite(old(St()), which, from, fault)
      ensures ok ==> View(which) == Some(from) && OnBase(which, from)
      ensures !ok ==> (View(which) in {Some(from), None} <==> !Stale(which, from))
      ensures forall w: nat :: w < blockCount && w != which ==>
        (View(w) in {old(View(w)), None} <==> !old(Revives(which, w)))
      ensures reliable ==> ok
      ensures Separate() ==> forall w :: 0 <= w < blockCount && w != which ==> View(w) == old(View(w))
      ensures Separate() && !ok ==> View(which) == None
    {
      hide Matches, Crc32, XorWord, Splice, Verified, HashAddr, DataAddr, HashCount, PackBe32, Field, Zeros;
      hide BringsBack, StaleUnder, ComesBack, HashBefore, RevivesIn;
      var h := blockSize / 4;
      var interior := which % h;
      HasBlock(which);
      DataAddrInRange(h, |base|, which);
      var _ := LoadHashOrZero(which);
      var crc := CalcCrc32(from);
      ghost var hb0, p := hashBlock, PackBe32(XorWord(crc, zeroCrc));
      var stored := Splice(hashBlock, 4 * interior, PackBe32(XorWord(crc, zeroCrc)));
      FieldsSpliced(hb0, interior, p, h);
      StoredMatches(hb0, interior, zeroCrc, from);
      ghost var left;
      ok, left := StoreHash(which, stored);
      fault := if left then HashLeft else HashLost;
      if ok {
        ok, left := StoreData(which, from);
        fault := if ok then Fine else if left then DataLeft else DataLost;
      }
      if !ok { StaleShows(base, blockSize, whichHashBlock, hashBlock, zeroCrc, which, from); }
    }

    method StoreHash(which: nat, stored: Block) returns (ok: bool, ghost left: bool)
      requires Valid() && verified && which < blockCount && |stored| == blockSize
      requires whichHashBlock == HashAddr(blockSize / 4, which) < |base|
      requires forall o :: 0 <= o < blockSize / 4 && o != which % (blockSize / 4) ==>
        Field(stored, o) == Field(hashBlock, o)
      modifies this`base, this`hashBlock
      ensures Valid() && |base| == old(|base|) && hashBlock == stored && whichHashBlock == old(whichHashBlock)
      ensures forall w :: 0 <= w < blockCount && w != which ==> View(w) == old(View(w))
      ensures base == Put(old(base), whichHashBlock, stored, ok, left)
      ensures (left ==> !ok && !erasing) && (!ok && !left ==> !keeping)
      ensures reliable || hashSafe ==> ok
    {
      hide Matches, Crc32, Verified, DataAddr, HashCount, Field, Zeros;
      var a := HashAddr(blockSize / 4, which);
      DataAddrInRange(blockSize / 4, |base|, which);
      DataAddrShape(blockSize / 4, which);
      ghost var base0, hb0 := base, hashBlock;
      hashBlock := stored;
      ok, left := BaseWrite(a, hashBlock);
      forall w | 0 <= w < blockCount
        ensures CacheFits(base, blockSize, a, hashBlock)
        ensures w != which ==> View(w) == old(View(w))
      {
        assert base == base0[a := base[a]];
        StoreKeepsOthers(base0, blockSize, a, hb0, zeroCrc, which, hashBlock, base[a], w);
      }
    }

    method StoreData(which: nat, from: Block) returns (ok: bool, ghost left: bool)
      requires Valid() && verified && which < blockCount && |from| == blockSize
      requires whichHashBlock == HashAddr(blockSize / 4, which) < |base|
      requires Matches(hashBlock, which % (blockSize / 4), zeroCrc, from)
      modifies this`base
      ensures Valid() && |base| == old(|base|)
      ensures forall w :: 0 <= w < blockCount && w != which ==> View(w) == old(View(w))
      ensures ok ==> View(which) == Some(from)
      ensures !ok && erasing ==> View(which) == None
      ensures var d := DataAddr(blockSize / 4, which);
        d < |base| && d != whichHashBlock && base == Put(old(base), d, from, ok, left)
      ensures (left ==> !ok && !erasing) && (!ok && !left ==> !keeping)
      ensures reliable ==> ok
    {
      hide Matches, Crc32, Verified, HashCount, Zeros, HashAddr, DataAddr;
      var a := DataAddr(blockSize / 4, which);
      DataAddrInRange(blockSize / 4, |base|, which);
      ghost var base0 := base;
      ok, left := BaseWrite(a, from);
      forall w | 0 <= w < blockCount
        ensures CacheFits(base, blockSize, whichHashBlock, hashBlock)
        ensures w != which ==> View(w) == old(View(w))
      {
        DataKeepsOthers(base0, blockSize, whichHashBlock, hashBlock, zeroCrc, which, base[a], w);
      }
      if ok {
        NowVerified(base, blockSize, whichHashBlock, hashBlock, zeroCrc, which, from);
      } else if erasing {
        NowLost(base, blockSize, whichHashBlock, hashBlock, zeroCrc, which);
      }
    }

    // ---- the device interface

    constructor Raw(blockSize: nat, base: Cells, reliable: bool, erasing: bool, keeping: bool)
      requires blockSize > 0 && SizedCells(base, blockSize) && (reliable ==> AllReadable(base))
      ensures Valid() && !verified && this.blockSize == blockSize && this.reliable == reliable
      ensures this.erasing == erasing && this.keeping == keeping
      ensures this.base == base && blockCount == |base|
      ensures forall w :: 0 <= w < blockCount ==> View(w) == base[w]
    {
      this.blockSize, this.base := blockSize, base;
      this.reliable, this.erasing, this.keeping := reliable, erasing, keeping;
      verified, hashSafe, blockCount, zeroCrc, hashBlock, whichHashBlock := false, false, |base|, 0, [], NONE;
    }

    constructor Verify(blockSize: nat, base: Cells, reliable: bool, erasing: bool, keeping: bool, hashSafe: bool,
                       zeroCrc: word)
      requires blockSize >= 4 && 2 <= |base| <= NONE
      requires SizedCells(base, blockSize) && (reliable ==> AllReadable(base))
      requires (hashSafe ==> HashesReadable(base, blockSize))
      requires zeroCrc == Crc32(Zeros(blockSize))
      ensures Valid() && verified && this.blockSize == blockSize
      ensures this.reliable == reliable && this.erasing == erasing && this.keeping == keeping
      ensures this.hashSafe == hashSafe
      ensures this.base == base && whichHashBlock == NONE
    {
      this.blockSize, this.base, this.zeroCrc := blockSize, base, zeroCrc;
      this.reliable, this.erasing, this.keeping, this.hashSafe := reliable, erasing, keeping, hashSafe;
      var hashesPerBlock := blockSize / 4;
      var hashBlockCount := HashCount(hashesPerBlock, |base|);
      RoomForData(hashesPerBlock, |base|);
      verified, blockCount := true, |base| - hashBlockCount;
      hashBlock, whichHashBlock := Zeros(blockSize), NONE;
    }

    /** Read into the bytes of into from offset off. After a failure their contents mean nothing. */
    method ReadBlock(which: nat, into: array<byte>, off: nat) returns (ok: bool)
      requires Valid() && which < blockCount && off + blockSize <= into.Length
      modifies this`hashBlock, this`whichHashBlock, into
      ensures Valid()
      ensures into[..off] == old(into[..off]) && into[off + blockSize..] == old(into[off + blockSize..])
      ensures ok == old(View(which)).Some? && View(which) == old(View(which))
      ensures ok ==> Some(into[off..off + blockSize]) == old(View(which))
      ensures Has(old(St()), which) && St() == AfterRead(old(St()), which) && (old(Coherent()) ==> Coherent())
      ensures forall w: nat :: w < blockCount ==> (View(w) in {old(View(w)), None} <==> !old(Resurfaces(which, w)))
      ensures Separate() ==> forall w :: 0 <= w < blockCount ==> View(w) == old(View(w))
    {
      hide Verified, HashCount, Crc32, Zeros, ComesBack;
      HasBlock(which);
      var data := into[off..off + blockSize];
      if verified {
        ok, data := VerifyRead(which, data);
      } else {
        ok, data := BaseRead(which, data);
      }
      CopyTo(into, off, data);
    }

    /** A failed write leaves its own block lost, as it was, or stale; a write may bring back others
        of a chunk whose hash block is lost, or of the chunk whose hash block leaves the cache. */
    method WriteBlock(which: nat, from: Block) returns (ok: bool)
      requires Valid() && which < blockCount && |from| == blockSize
      modifies this
      ensures Valid() && |base| == old(|base|)
      ensures Has(old(St()), which) && Outcome(old(St()), which, from, ok, St())
      ensures ok ==> View(which) == Some(from)
      ensures !ok ==> (View(which) in {Some(from), None} <==> !Stale(which, from))
      ensures forall w: nat :: w < blockCount && w != which ==>
        (View(w) in {old(View(w)), None} <==> !old(Revives(which, w)))
      ensures reliable ==> ok
      ensures Separate() ==> forall w :: 0 <= w < blockCount && w != which ==> View(w) == old(View(w))
      ensures Separate() && !ok ==> View(which) in {old(View(which)), None}
      ensures Steady() && !ok ==> View(which) == None
      ensures keeping && !verified && !ok ==> View(which) == old(View(which))
    {
      hide Verified, BringsBack, StaleUnder, ComesBack, HashAddr, DataAddr, HashCount, Crc32, Zeros;
      HasBlock(which);
      ghost var d, fault := St(), Fine;
      if verified {
        ok, fault := VerifyWrite(which, from);
      } else {
        ghost var left;
        ok, left := BaseWrite(which, from);
        fault := if ok then Fine else if left then DataLeft else DataLost;
      }
      HappenedOnce(d, which, from, fault, St());
    }

    method ClearCaches()
      requires Valid()
      modifies this`whichHashBlock
      ensures Valid() && Coherent() && St() == AfterClear(old(St()))
      ensures forall w: nat :: w < blockCount ==> (View(w) in {old(View(w)), None} <==> !old(Surfaces(w)))
      ensures Separate() ==> forall w :: 0 <= w < blockCount ==> View(w) == old(View(w))
    {
      hide Verified, Crc32, Zeros, HashCount, IsHashAddr, AllReadable, HashesReadable, ComesBack;
      if verified {
        ghost var tag := whichHashBlock;
        if Separate() { SafeHash(); }
        whichHashBlock := NONE;
        forall w: nat | w < blockCount
          ensures CacheFits(base, blockSize, NONE, hashBlock)
          ensures View(w) in {old(View(w)), None} <==> !old(Surfaces(w))
          ensures Separate() ==> View(w) == old(View(w))
        {
          DropKeepsView(base, blockSize, tag, hashBlock, zeroCrc, w);
        }
        RoomForData(blockSize / 4, |base|);
        assert 0 <= 0 < blockCount;
      }
    }

    /** Not an operation of the device: base block a silently changes under the layer. */
    method Corrupt(which: nat, data: Block)
      requires Valid() && verified && which < blockCount && |data| == blockSize
      requires DataAddr(blockSize / 4, which) < |base|
      requires View(which).Some? && Burst(View(which).value, data)
      modifies this`base
      ensures Valid() && |base| == old(|base|)
      ensures base == old(base)[DataAddr(blockSize / 4, which) := Some(data)]
      ensures View(which) == None
      ensures forall w :: 0 <= w < blockCount && w != which ==> View(w) == old(View(w))
    {
      hide Matches, Verified, Burst, Crc32, Zeros, HashCount, DataAddr, HashAddr, IsHashAddr;
      ghost var base0 := base;
      DataAddrShape(blockSize / 4, which);
      base := base[DataAddr(blockSize / 4, which) := Some(data)];
      NotAHash(blockSize / 4, which);
      forall w | 0 <= w < blockCount
        ensures CacheFits(base, blockSize, whichHashBlock, hashBlock)
        ensures CacheTrue(base0, whichHashBlock, hashBlock) ==> CacheTrue(base, whichHashBlock, hashBlock)
        ensures w != which ==> View(w) == old(View(w))
      {
        DataKeepsOthers(base0, blockSize, whichHashBlock, hashBlock, zeroCrc, which, Some(data), w);
      }
      BurstHidesBlock(base0, blockSize, whichHashBlock, hashBlock, zeroCrc, which, data);
    }

    /** The hash block at a and data disagree about the checksum of block w. */
    predicate Garbles(a: nat, data: Block, w: nat)
      reads this
      requires Valid() && verified && a < |base| && |data| == blockSize && w < blockCount
    {
      base[a].Some? && GarblesField(base[a].value, blockSize, a, data, w)
    }

    /** Not an operation of the device: a hash block that is not cached silently changes. The
        checksums that change must be those of blocks that could be read. */
    method CorruptHash(a: nat, data: Block)
      requires Valid() && verified && a < |base| && IsHashAddr(blockSize / 4, a) && |data| == blockSize
      requires a != whichHashBlock && base[a].Some?
      requires forall w: nat :: w < blockCount && Garbles(a, data, w) ==> View(w).Some?
      modifies this`base
      ensures Valid() && base == old(base)[a := Some(data)]
      ensures forall w: nat :: w < blockCount ==> View(w) == if old(Garbles(a, data, w)) then None else old(View(w))
    {
      hide Matches, Verified, Crc32, Zeros, HashCount, DataAddr, HashAddr, IsHashAddr, Field, GarblesField;
      ghost var base0 := base;
      base := base[a := Some(data)];
      forall w: nat | w < blockCount
        ensures View(w) == if old(Garbles(a, data, w)) then None else old(View(w))
      {
        assert old(Garbles(a, data, w)) ==> old(View(w)).Some?;
        HashHidesBlock(base0, blockSize, whichHashBlock, hashBlock, zeroCrc, a, data, w);
      }
    }
  }

  /** A device whose base block a has silently become data. */
  function Corrupted(d: Dev, a: nat, data: Block): Dev {
    if a < |d.base| then d.(base := d.base[a := Some(data)]) else d
  }

  /** What Garbles says, of the device as a value. */
  predicate Garbled(d: Dev, a: nat, data: Block, w: nat) {
    && a < |d.base| && d.base[a].Some? && |d.base[a].value| == |data| == d.cfg.bs >= 4
    && GarblesField(d.base[a].value, d.cfg.bs, a, data, w)
  }

  predicate GarblesField(h: Block, bs: nat, a: nat, data: Block, w: nat)
    requires bs >= 4 && |h| == |data| == bs
  {
    HashAddr(bs / 4, w) == a && Field(h, w % (bs / 4)) != Field(data, w % (bs / 4))
  }

  /** A changed checksum makes the block it is for fail verification, and no other. */
  lemma HashHidesBlock(base: Cells, bs: nat, tag: nat, hb: Block, zc: word, a: nat, data: Block, w: nat)
    requires CacheFits(base, bs, tag, hb) && w < |base| - HashCount(bs / 4, |base|)
    requires a < |base| && IsHashAddr(bs / 4, a) && a != tag && base[a].Some? && |data| == bs
    requires GarblesField(base[a].value, bs, a, data, w) ==> Verified(base, bs, tag, hb, zc, w).Some?
    ensures CacheFits(base[a := Some(data)], bs, tag, hb)
    ensures Verified(base[a := Some(data)], bs, tag, hb, zc, w) ==
      if GarblesField(base[a].value, bs, a, data, w) then None else Verified(base, bs, tag, hb, zc, w)
  {
    hide Crc32, XorWord, UnpackBe32;
    var h := bs / 4;
    DataAddrInRange(h, |base|, w);
    NotAHash(h, w);
    if GarblesField(base[a].value, bs, a, data, w) {
      var f, f' := UnpackBe32(Field(base[a].value, w % h)), UnpackBe32(Field(data, w % h));
      if f == f' { UnpackInjective(Field(base[a].value, w % h), Field(data, w % h)); }
      XorWordInjective(f, f', zc);
    }
  }

  /** The input on which an earlier write comes undone: the hash block of blocks 0 and 1 was lost
      while block 0 was written, and the zeros it held are still under it. Writing block 1 puts a
      zero hash block in place, and block 0 reads as zeros. */
  lemma ZeroFillBringsBack(bs: nat, zc: word)
    requires bs == 8 && zc == Crc32(Zeros(bs))
    ensures CacheFits(LostHash(bs), bs, 3, Zeros(bs)) && CacheTrue(LostHash(bs), 3, Zeros(bs))
    ensures 1 < |LostHash(bs)| - HashCount(bs / 4, |LostHash(bs)|)
    ensures Verified(LostHash(bs), bs, 3, Zeros(bs), zc, 0) == None
    ensures BringsBack(LostHash(bs), bs, 3, zc, 1, 0)
    ensures CacheFits(LostHash(bs), bs, 0, Zeros(bs))
    ensures Verified(LostHash(bs), bs, 0, Zeros(bs), zc, 0) == Some(Zeros(bs))
  {
    hide Crc32, Zeros, Matches;
    ZerosMatch(bs, 0, zc, Zeros(bs));
  }

  /** The input on which a read does it: x was to be written to block 0 of an all-zero base, and the
      write of the hash block failed and left the old one. Block 0 is refused until the hash block
      of another chunk is loaded; then it reads as zeros again. */
  lemma LeftHashComesBack(bs: nat, zc: word)
    requires bs == 8 && zc == Crc32(Zeros(bs))
    ensures var base, x := seq(6, _ => Some(Zeros(bs))), [1] + Zeros(7);
      var hb := Splice(Zeros(bs), 0, PackBe32(XorWord(Crc32(x), zc)));
      && CacheFits(base, bs, 0, hb) && 0 < |base| - HashCount(bs / 4, |base|)
      && Verified(base, bs, 0, hb, zc, 0) == None && ComesBack(base, bs, 0, hb, zc, 0)
      && CacheFits(base, bs, 3, Zeros(bs)) && Verified(base, bs, 3, Zeros(bs), zc, 0) == Some(Zeros(bs))
  {
    hide Crc32, Zeros, XorWord, PackBe32, UnpackBe32, Matches;
    var base, x := seq(6, _ => Some(Zeros(bs))), [1] + Zeros(7);
    var hb := Splice(Zeros(bs), 0, PackBe32(XorWord(Crc32(x), zc)));
    ZerosMatch(bs, 0, zc, Zeros(bs));
    StoredMatches(Zeros(bs), 0, zc, x);
    OneByteMatters();
    OneMatch(hb, 0, zc, x, Zeros(bs));
  }

  /** A stored checksum passes blocks of one checksum only. */
  lemma OneMatch(h: Block, o: nat, zc: word, x: Block, y: Block)
    requires 4 * o + 4 <= |h| && Matches(h, o, zc, x) && Crc32(x) != Crc32(y)
    ensures !Matches(h, o, zc, y)
  {
    hide Crc32, XorWord, UnpackBe32;
  }

  lemma OneByteMatters()
    ensures Crc32([1] + Zeros(7)) != Crc32(Zeros(8))
  {
    hide Crc32;
    var x := [1] + Zeros(7);
    assert x[0] != Zeros(8)[0];
    assert x[..0] == Zeros(8)[..0] && x[4..] == Zeros(8)[4..];
    assert OutsideWindowSame(x, Zeros(8), 0);
    BurstChangesCrc(x, Zeros(8));
  }

  ghost function LostHash(bs: nat): (base: Cells)
    ensures |base| == 6 && base[0] == None && forall k :: 1 <= k < 6 ==> base[k] == Some(Zeros(bs))
  {
    [None] + seq(5, _ => Some(Zeros(bs)))
  }

  /** xs and ys differ, and only inside some window of at most four bytes. */
  predicate Burst(xs: Block, ys: Block) {
    |xs| == |ys| && xs != ys && exists i :: 0 <= i <= |xs| && OutsideWindowSame(xs, ys, i)
  }

  predicate OutsideWindowSame(xs: Block, ys: Block, i: nat)
    requires |xs| == |ys| && i <= |xs|
  {
    xs[..i] == ys[..i] && (i + 4 <= |xs| ==> xs[i + 4..] == ys[i + 4..])
  }

  lemma BurstChangesCrc(xs: Block, ys: Block)
    requires Burst(xs, ys)
    ensures Crc32(xs) != Crc32(ys)
  {
    hide Crc32;
    var i :| 0 <= i <= |xs| && OutsideWindowSame(xs, ys, i);
    var j := if i + 4 <= |xs| then i + 4 else |xs|;
    assert xs == xs[..i] + xs[i..j] + xs[j..] && ys == ys[..i] + ys[i..j] + ys[j..];
    BurstDetected(xs[..i], xs[i..j], ys[i..j], xs[j..]);
  }

  /** A burst in a data block that used to verify makes it fail verification. */
  lemma BurstHidesBlock(base: Cells, bs: nat, tag: nat, hb: Block, zc: word, which: nat, data: Block)
    requires CacheFits(base, bs, tag, hb) && which < |base| - HashCount(bs / 4, |base|)
    requires DataAddr(bs / 4, which) < |base| && |data| == bs
    requires Verified(base, bs, tag, hb, zc, which).Some? && Burst(Verified(base, bs, tag, hb, zc, which).value, data)
    ensures CacheFits(base[DataAddr(bs / 4, which) := Some(data)], bs, tag, hb)
    ensures Verified(base[DataAddr(bs / 4, which) := Some(data)], bs, tag, hb, zc, which) == None
  {
    hide Crc32, XorWord, UnpackBe32, Burst;
    DataAddrInRange(bs / 4, |base|, which);
    BurstChangesCrc(Verified(base, bs, tag, hb, zc, which).value, data);
  }

  lemma NothingToBringBack(base: Cells, bs: nat, tag: nat, zc: word, which: nat, w: nat)
    requires bs >= 4 && HashAddr(bs / 4, which) < |base|
    requires tag == HashAddr(bs / 4, which) || base[HashAddr(bs / 4, which)].Some?
    ensures !BringsBack(base, bs, tag, zc, which, w)
  {}

  lemma StaleShows(base: Cells, bs: nat, a: nat, hb: Block, zc: word, which: nat, from: Block)
    requires CacheFits(base, bs, a, hb) && which < |base| - HashCount(bs / 4, |base|) && |from| == bs
    requires a == HashAddr(bs / 4, which) && Matches(hb, which % (bs / 4), zc, from)
    ensures Verified(base, bs, a, hb, zc, which) in {Some(from), None} <==> !StaleUnder(base, bs, which, from)
  {
    hide Crc32, XorWord, UnpackBe32;
    DataAddrInRange(bs / 4, |base|, which);
  }

  lemma NowLost(base: Cells, bs: nat, a: nat, hb: Block, zc: word, which: nat)
    requires CacheFits(base, bs, a, hb) && which < |base| - HashCount(bs / 4, |base|)
    requires DataAddr(bs / 4, which) < |base| && base[DataAddr(bs / 4, which)] == None
    ensures Verified(base, bs, a, hb, zc, which) == None
  {}

  lemma NowVerified(base: Cells, bs: nat, a: nat, hb: Block, zc: word, which: nat, from: Block)
    requires CacheFits(base, bs, a, hb) && which < |base| - HashCount(bs / 4, |base|)
    requires a == HashAddr(bs / 4, which) && DataAddr(bs / 4, which) < |base|
    requires base[DataAddr(bs / 4, which)] == Some(from) && Matches(hb, which % (bs / 4), zc, from)
    ensures Verified(base, bs, a, hb, zc, which) == Some(from)
  {}
}
