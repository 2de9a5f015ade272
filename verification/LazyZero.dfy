/** Lazy zeroing: a bitmap says which chunks of the data area have been initialised. */
module LazyZeroing {
  import opened Arithmetic
  import opened BitVector
  import opened Bits
  import opened BlockCaching
  import opened Crc
  import opened Devices
  import opened Parity
  import opened PlainArray
  import opened RowMajor
  import opened VerifyDevice

  /** Header at base block 0, then bitmapBlocks blocks, then the data; chunk bits are
      looked up from base block 0 on. */
  datatype Layout = Layout(bs: nat, bitmapBlocks: nat, chunkSize: nat, blockCount: nat) {
    function BitsPerBlock(): (n: nat)
      ensures bs > 0 ==> n > 0
    {
      bs * 8
    }

    ghost predicate Valid(total: nat) {
      && bs > 0 && chunkSize > 0
      && total == 1 + bitmapBlocks + blockCount
      && bitmapBlocks * BitsPerBlock() >= Chunks()
    }

    function Chunks(): nat
      requires chunkSize > 0
    {
      (blockCount + chunkSize - 1) / chunkSize
    }

    function DataAt(w: nat): nat { w + 1 + bitmapBlocks }
  }

  function ChunkOf(l: Layout, w: nat): nat
    requires l.chunkSize > 0
  {
    w / l.chunkSize
  }

  /** Where the bit of a chunk is. */
  function MapBlock(l: Layout, chunk: nat): nat
    requires l.bs > 0
  {
    Quotient(chunk, l.BitsPerBlock())
  }

  function MapBit(l: Layout, chunk: nat): (i: nat)
    requires l.bs > 0
    ensures i < 8 * l.bs
  {
    chunk % l.BitsPerBlock()
  }

  lemma ChunkInRange(l: Layout, total: nat, w: nat)
    requires l.Valid(total) && w < l.blockCount
    ensures ChunkOf(l, w) < l.Chunks()
    ensures MapBlock(l, ChunkOf(l, w)) < l.bitmapBlocks
  {
    var c, n := ChunkOf(l, w), l.chunkSize;
    DivMod(w, n);
    DivMod(l.blockCount + n - 1, n);
    MulSuccessor(n, l.Chunks());
    if c >= l.Chunks() { MulMonotone(n, l.Chunks(), c); }
    MapInRange(l, total, c);
  }

  lemma MapInRange(l: Layout, total: nat, chunk: nat)
    requires l.Valid(total) && chunk < l.Chunks()
    ensures MapBlock(l, chunk) < l.bitmapBlocks
  {
    var per := l.BitsPerBlock();
    DivMod(chunk, per);
    if chunk / per >= l.bitmapBlocks { MulMonotone(per, l.bitmapBlocks, chunk / per); }
  }

  lemma MapInjective(l: Layout, c: nat, d: nat)
    requires l.bs > 0 && MapBlock(l, c) == MapBlock(l, d) && MapBit(l, c) == MapBit(l, d)
    ensures c == d
  {
    DivMod(c, l.BitsPerBlock());
    DivMod(d, l.BitsPerBlock());
  }

  /** Base block b is data of the chunk. */
  predicate InChunk(l: Layout, chunk: nat, b: nat) {
    l.DataAt(chunk * l.chunkSize) <= b < l.DataAt(chunk * l.chunkSize) + l.chunkSize
  }

  lemma InOwnChunk(l: Layout, chunk: nat, w: nat)
    requires l.chunkSize > 0
    ensures InChunk(l, chunk, l.DataAt(w)) <==> ChunkOf(l, w) == chunk
  {
    var n := l.chunkSize;
    DivMod(w, n);
    if InChunk(l, chunk, l.DataAt(w)) {
      DivModUnique(w, n, chunk, w - chunk * n);
    }
  }

  // ---- what the layer shows, given what the cache shows

  /** Blocks of the base as seen through the cache. */
  type Sight = Contents

  ghost predicate Proper(l: Layout, s: Sight) {
    && l.Valid(|s|)
    && forall b :: 0 <= b < |s| && s[b].Some? ==> |s[b].value| == l.bs
  }

  /** All of the bitmap can be read. */
  ghost predicate BitmapReadable(l: Layout, s: Sight)
    requires l.Valid(|s|)
  {
    forall b :: 0 <= b < l.bitmapBlocks ==> s[b].Some?
  }

  /** A bitmap block that cannot be read counts as one whose bits are not set. */
  ghost predicate ChunkSet(l: Layout, s: Sight, chunk: nat)
    requires Proper(l, s) && MapBlock(l, chunk) < l.bitmapBlocks
  {
    var seen := s[MapBlock(l, chunk)];
    seen.Some? && BitGet(seen.value, MapBit(l, chunk))
  }

  ghost function Shows(l: Layout, s: Sight, w: nat): Option<Block>
    requires Proper(l, s) && w < l.blockCount
  {
    ChunkInRange(l, |s|, w);
    if ChunkSet(l, s, ChunkOf(l, w)) then s[l.DataAt(w)] else Some(Zeros(l.bs))
  }

  /** The bits of the chunks stand eight to a byte, the least significant first, from base block 0 on,
      the blocks in order from bitmapBlocks + 1 on. Where the bit is set a block shows what is there. */
  lemma ShowsFrom(l: Layout, s: Sight, w: nat, chunk: nat, k: nat, o: nat)
    requires Proper(l, s) && w < l.blockCount && l.chunkSize > 0 && l.bs > 0
    requires chunk == w / l.chunkSize && o < 8 * l.bs && chunk == k * (8 * l.bs) + o
    ensures k < |s| && (s[k].Some? ==> o / 8 < |s[k].value|) && Pow2(o % 8) > 0
    ensures w + 1 + l.bitmapBlocks < |s|
    ensures Shows(l, s, w) ==
      if s[k].Some? && s[k].value[o / 8] as nat / Pow2(o % 8) % 2 == 1 then s[w + 1 + l.bitmapBlocks]
      else Some(Zeros(l.bs))
  {
    hide BitGet, Zeros, Pow2;
    ChunkInRange(l, |s|, w);
    var per := l.BitsPerBlock();
    assert per == 8 * l.bs && chunk == per * k + o;
    DivModUnique(chunk, per, k, o);
    assert MapBlock(l, chunk) == k && MapBit(l, chunk) == o && ChunkOf(l, w) == chunk;
    BitAtIs(0, o % 8);
    if s[k].Some? { BitGetIs(s[k].value, o); }
  }

  ghost predicate SameShows(l: Layout, s: Sight, s': Sight)
    requires Proper(l, s) && Proper(l, s')
  {
    forall w :: 0 <= w < l.blockCount ==> Shows(l, s', w) == Shows(l, s, w)
  }

  /** The bits of all chunks but one are as they were. */
  ghost predicate OtherBits(l: Layout, s: Sight, s': Sight, chunk: nat)
    requires Proper(l, s) && Proper(l, s')
  {
    forall d: nat :: d != chunk && MapBlock(l, d) < l.bitmapBlocks ==> ChunkSet(l, s', d) == ChunkSet(l, s, d)
  }

  /** Data blocks of chunks that are not set may change freely. */
  lemma ClearingInvisible(l: Layout, s: Sight, s': Sight, chunk: nat)
    requires Proper(l, s) && |s'| == |s| && MapBlock(l, chunk) < l.bitmapBlocks && !ChunkSet(l, s, chunk)
    requires forall b :: 0 <= b < |s| && s'[b].Some? ==> |s'[b].value| == l.bs
    requires forall b :: 0 <= b < |s| && !InChunk(l, chunk, b) ==> s'[b] == s[b]
    ensures Proper(l, s') && SameShows(l, s, s') && !ChunkSet(l, s', chunk)
  {
    hide BitGet, MapBlock, MapBit, ChunkOf, Zeros;
    forall b | 0 <= b < l.bitmapBlocks
      ensures s'[b] == s[b]
    {
      BelowData(l, chunk, b);
    }
    forall w | 0 <= w < l.blockCount
      ensures Shows(l, s', w) == Shows(l, s, w)
    {
      ChunkInRange(l, |s|, w);
      InOwnChunk(l, chunk, w);
    }
  }

  lemma BelowData(l: Layout, chunk: nat, b: nat)
    requires b <= l.bitmapBlocks
    ensures !InChunk(l, chunk, b)
  {}

  /** Setting the bit of a chunk whose data is all zeros changes nothing. */
  lemma SettingInvisible(l: Layout, s: Sight, chunk: nat, s': Sight)
    requires Proper(l, s) && MapBlock(l, chunk) < l.bitmapBlocks && !ChunkSet(l, s, chunk)
    requires s[MapBlock(l, chunk)].Some?
    requires forall b :: 0 <= b < |s| && InChunk(l, chunk, b) ==> s[b] == Some(Zeros(l.bs))
    requires s' == s[MapBlock(l, chunk) := Some(BitSet(s[MapBlock(l, chunk)].value, MapBit(l, chunk)))]
    ensures Proper(l, s') && SameShows(l, s, s') && ChunkSet(l, s', chunk) && OtherBits(l, s, s', chunk)
  {
    hide BitGet, BitSet, MapBlock, MapBit, ChunkOf, Zeros, InChunk;
    var k := MapBlock(l, chunk);
    SetFacts(s[k].value, MapBit(l, chunk));
    forall d: nat | d != chunk && MapBlock(l, d) < l.bitmapBlocks
      ensures ChunkSet(l, s', d) == ChunkSet(l, s, d)
    {
      if MapBlock(l, d) == k && MapBit(l, d) == MapBit(l, chunk) { MapInjective(l, d, chunk); }
    }
    forall w | 0 <= w < l.blockCount
      ensures Shows(l, s', w) == Shows(l, s, w)
    {
      ChunkInRange(l, |s|, w);
      InOwnChunk(l, chunk, w);
      var c := ChunkOf(l, w);
      if MapBlock(l, c) == k && MapBit(l, c) == MapBit(l, chunk) { MapInjective(l, c, chunk); }
    }
  }

  lemma SetFacts(s: seq<byte>, which: nat)
    requires which < 8 * |s|
    ensures |BitSet(s, which)| == |s|
    ensures forall j :: 0 <= j < 8 * |s| ==> BitGet(BitSet(s, which), j) == (j == which || BitGet(s, j))
  {}

  /** Writing a data block of a set chunk shows at exactly one place. */
  lemma WritingShowsOne(l: Layout, s: Sight, which: nat, v: Option<Block>, s': Sight)
    requires Proper(l, s) && which < l.blockCount && (v.Some? ==> |v.value| == l.bs)
    requires MapBlock(l, ChunkOf(l, which)) < l.bitmapBlocks && ChunkSet(l, s, ChunkOf(l, which))
    requires s' == s[l.DataAt(which) := v]
    ensures Proper(l, s')
    ensures forall w :: 0 <= w < l.blockCount ==> Shows(l, s', w) == if w == which then v else Shows(l, s, w)
  {
    hide BitGet, MapBlock, MapBit, ChunkOf, Zeros;
    forall w | 0 <= w < l.blockCount
      ensures Shows(l, s', w) == if w == which then v else Shows(l, s, w)
    {
      ChunkInRange(l, |s|, w);
    }
  }

  ghost predicate Prepared(l: Layout, s: Sight, s': Sight, chunk: nat, ok: bool)
    requires Proper(l, s) && Proper(l, s') && MapBlock(l, chunk) < l.bitmapBlocks
  {
    SameShows(l, s, s') && OtherBits(l, s, s', chunk) && (ok ==> ChunkSet(l, s', chunk))
  }

  /** What the layer's buffer holds after a chunk was prepared. */
  ghost function Buffered(l: Layout, s: Sight, chunk: nat, v: Block): Block
    requires Proper(l, s) && MapBlock(l, chunk) < l.bitmapBlocks
  {
    if ChunkSet(l, s, chunk) then v else Zeros(l.bs)
  }

  /** After a write of one block: every other block is shown as before; a failed write leaves
      the block as it was or unreadable. */
  ghost predicate WroteOne(l: Layout, s: Sight, s': Sight, which: nat, ok: bool, v: Block, aliased: bool)
    requires Proper(l, s) && Proper(l, s') && |s| == |s'| && which < l.blockCount
  {
    ChunkInRange(l, |s|, which);
    && (forall w :: 0 <= w < l.blockCount && w != which ==> Shows(l, s', w) == Shows(l, s, w))
    && OtherBits(l, s, s', ChunkOf(l, which)) && (ok ==> ChunkSet(l, s', ChunkOf(l, which)))
    && if ok then Shows(l, s', which) == Some(if aliased then Buffered(l, s, ChunkOf(l, which), v) else v)
       else Shows(l, s', which) in {Shows(l, s, which), None}
  }

  /** Of the bitmap only the block of the chunk may differ, and it can be read as before. */
  ghost predicate BitmapKept(l: Layout, s: Sight, s': Sight, chunk: nat)
    requires l.Valid(|s|) && MapBlock(l, chunk) < l.bitmapBlocks
  {
    && |s| == |s'| && s'[MapBlock(l, chunk)].Some? == s[MapBlock(l, chunk)].Some?
    && forall b :: 0 <= b < l.bitmapBlocks && b != MapBlock(l, chunk) ==> s'[b] == s[b]
  }

  /** Why a write may be refused where failed writes lose the block: the bit of the chunk cannot be
      set, or some block of the chunk is gone. */
  ghost predicate Impaired(l: Layout, s: Sight, chunk: nat)
    requires l.Valid(|s|) && MapBlock(l, chunk) < l.bitmapBlocks
  {
    s[MapBlock(l, chunk)].None? || exists b :: 0 <= b < |s| && InChunk(l, chunk, b) && s[b].None?
  }

  // ---- bitmap blocks whose write back failed

  /** Bitmap blocks that were lost are what the base still holds, or nothing; the rest is as it was. */
  ghost predicate Recedes(l: Layout, s: Sight, base: Contents, s': Sight, lost: set<nat>) {
    && |s| == |base| == |s'|
    && (forall b :: b in lost ==> b < l.bitmapBlocks && b < |s| && s[b].Some?)
    && forall b: nat :: b < |s| ==> if b in lost then s'[b] in {base[b], None} else s'[b] == s[b]
  }

  /** s, with the lost blocks as they are in s'. */
  ghost function Receded(s: Sight, s': Sight, lost: set<nat>): (r: Sight)
    requires |s| == |s'|
    ensures |r| == |s| && (lost == {} ==> r == s)
    ensures forall b: nat :: b < |s| ==> r[b] == if b in lost then s'[b] else s[b]
  {
    seq(|s|, b requires 0 <= b < |s| => if b in lost then s'[b] else s[b])
  }

  lemma RecedesSame(l: Layout, s: Sight, base: Contents, s': Sight, lost: set<nat>)
    requires Recedes(l, s, base, s', lost)
    ensures lost == {} ==> s' == s
  {}

  /** What is shown once bitmap blocks are lost: a chunk whose block was set back is initialised when
      it was on the base, and reads as zeros otherwise; all others show what they did. */
  lemma SetBackShows(l: Layout, s: Sight, base: Contents, s': Sight, lost: set<nat>, w: nat)
    requires Recedes(l, s, base, s', lost) && Proper(l, s) && Proper(l, s') && w < l.blockCount
    ensures var b := MapBlock(l, ChunkOf(l, w));
      && b < l.bitmapBlocks && (b !in lost ==> Shows(l, s', w) == Shows(l, s, w))
      && (b in lost ==>
            && s'[b] in {base[b], None}
            && var set' := s'[b].Some? && BitGet(s'[b].value, MapBit(l, ChunkOf(l, w)));
               Shows(l, s', w) == if set' then s[l.DataAt(w)] else Some(Zeros(l.bs)))
  {
    hide BitGet, MapBlock, MapBit, ChunkOf, Zeros;
    ChunkInRange(l, |s|, w);
  }

  /** A successful write stores what it was given exactly when the buffer was the caller's own, or
      the chunk was initialised already, or the data was all zeros. */
  lemma StoredAsGiven(l: Layout, s: Sight, s': Sight, which: nat, v: Block, aliased: bool)
    requires l.Valid(|s|) && |s| == |s'| && which < l.blockCount && Proper(l, s) && Proper(l, s')
    requires WroteOne(l, s, s', which, true, v, aliased)
    ensures MapBlock(l, ChunkOf(l, which)) < l.bitmapBlocks
    ensures Shows(l, s', which) == Some(v) <==> !aliased || ChunkSet(l, s, ChunkOf(l, which)) || v == Zeros(l.bs)
  {
    hide Shows, ChunkSet, Zeros;
    ChunkInRange(l, |s|, which);
  }

  lemma Cleared(l: Layout, s: Sight, s': Sight, chunk: nat)
    requires Proper(l, s) && Proper(l, s') && |s'| == |s| && MapBlock(l, chunk) < l.bitmapBlocks
    requires !ChunkSet(l, s, chunk) && forall b :: 0 <= b < |s| && !InChunk(l, chunk, b) ==> s'[b] == s[b]
    ensures Prepared(l, s, s', chunk, false) && !ChunkSet(l, s', chunk) && BitmapKept(l, s, s', chunk)
  {
    hide BitGet, MapBlock, MapBit, ChunkOf, Zeros, InChunk, Shows;
    forall b | 0 <= b < l.bitmapBlocks
      ensures s'[b] == s[b]
    {
      BelowData(l, chunk, b);
    }
    ClearingInvisible(l, s, s', chunk);
  }

  lemma Chosen(l: Layout, s: Sight, chunk: nat, s': Sight)
    requires Proper(l, s) && |s'| == |s| && MapBlock(l, chunk) < l.bitmapBlocks && !ChunkSet(l, s, chunk)
    requires forall b :: 0 <= b < |s| && InChunk(l, chunk, b) ==> s[b] == Some(Zeros(l.bs))
    requires s[MapBlock(l, chunk)].Some?
    requires s' == s[MapBlock(l, chunk) := Some(BitSet(s[MapBlock(l, chunk)].value, MapBit(l, chunk)))]
    ensures Proper(l, s') && Prepared(l, s, s', chunk, true) && BitmapKept(l, s, s', chunk)
  {
    hide BitGet, BitSet, MapBlock, MapBit, ChunkOf, Zeros, InChunk, ChunkSet, Shows;
    SettingInvisible(l, s, chunk, s');
  }

  /** The first i blocks of the chunk that exist are zeros, and those of no other have changed. */
  ghost predicate ClearedTo(l: Layout, s: Sight, s': Sight, chunk: nat, i: nat) {
    && |s'| == |s|
    && (forall b :: 0 <= b < |s| && !InChunk(l, chunk, b) ==> s'[b] == s[b])
    && forall b :: l.DataAt(chunk * l.chunkSize) <= b < l.DataAt(chunk * l.chunkSize) + i && b < |s| ==>
      s'[b] == Some(Zeros(l.bs))
  }

  lemma NothingCleared(l: Layout, s: Sight, chunk: nat)
    ensures ClearedTo(l, s, s, chunk, 0)
  {}

  lemma OneMoreCleared(l: Layout, s: Sight, t: Sight, t': Sight, chunk: nat, i: nat, b: nat)
    requires ClearedTo(l, s, t, chunk, i) && i < l.chunkSize && b == l.DataAt(chunk * l.chunkSize) + i < |s|
    requires |t'| == |t| && t' == t[b := t'[b]]
    ensures forall k :: 0 <= k < |s| && !InChunk(l, chunk, k) ==> t'[k] == s[k]
    ensures t'[b] == Some(Zeros(l.bs)) ==> ClearedTo(l, s, t', chunk, i + 1)
    ensures InChunk(l, chunk, b)
  {
    hide Zeros;
    assert InChunk(l, chunk, b);
  }

  lemma NoneThere(l: Layout, s: Sight, t: Sight, chunk: nat, i: nat, b: nat)
    requires ClearedTo(l, s, t, chunk, i) && b == l.DataAt(chunk * l.chunkSize) + i && b >= |s|
    ensures ClearedTo(l, s, t, chunk, i + 1)
  {
    hide Zeros;
  }

  lemma AllCleared(l: Layout, s: Sight, s': Sight, chunk: nat)
    requires ClearedTo(l, s, s', chunk, l.chunkSize)
    ensures |s'| == |s| && forall b :: 0 <= b < |s| && !InChunk(l, chunk, b) ==> s'[b] == s[b]
    ensures forall b :: 0 <= b < |s| && InChunk(l, chunk, b) ==> s'[b] == Some(Zeros(l.bs))
  {
    hide Zeros;
  }

  /** A data block of a set chunk is written, or not, and shows v. */
  lemma DataWritten(l: Layout, s: Sight, which: nat, v: Option<Block>, s': Sight)
    requires Proper(l, s) && which < l.blockCount && (v.Some? ==> |v.value| == l.bs)
    requires s' == s[l.DataAt(which) := v]
    requires MapBlock(l, ChunkOf(l, which)) < l.bitmapBlocks && ChunkSet(l, s, ChunkOf(l, which))
    ensures Proper(l, s') && OtherBits(l, s, s', ChunkOf(l, which)) && ChunkSet(l, s', ChunkOf(l, which))
    ensures BitmapKept(l, s, s', ChunkOf(l, which)) && InChunk(l, ChunkOf(l, which), l.DataAt(which))
    ensures forall w :: 0 <= w < l.blockCount ==> Shows(l, s', w) == if w == which then v else Shows(l, s, w)
  {
    hide BitGet, MapBlock, MapBit, ChunkOf, Zeros;
    assert forall b :: 0 <= b < l.bitmapBlocks ==> s'[b] == s[b];
    InOwnChunk(l, ChunkOf(l, which), which);
    WritingShowsOne(l, s, which, v, s');
  }

  lemma PreparedTwice(l: Layout, s: Sight, t: Sight, u: Sight, chunk: nat, ok: bool, ok': bool)
    requires Proper(l, s) && Proper(l, t) && Proper(l, u) && MapBlock(l, chunk) < l.bitmapBlocks
    requires Prepared(l, s, t, chunk, ok) && Prepared(l, t, u, chunk, ok')
    requires BitmapKept(l, s, t, chunk) && BitmapKept(l, t, u, chunk)
    ensures Prepared(l, s, u, chunk, ok') && BitmapKept(l, s, u, chunk)
  {
    hide Shows, ChunkSet, MapBlock;
  }

  // ---- the device

  class LazyZero {
    const cache: BlockCache
    const layout: Layout
    const gbuf: array<byte>

    constructor Open(base: Bdev, layout: Layout)
      requires base.Valid() && base.Separate() && base.blockCount <= NONE
      requires layout.bs == base.blockSize && layout.Valid(base.blockCount)
      ensures Wired() && this.layout == layout && cache.base == base
      ensures fresh(cache.data) && fresh(cache.indexes) && fresh(cache.dirty) && fresh(gbuf)
      ensures forall b :: 0 <= b < base.blockCount ==> Sees()[b] == base.View(b)
    {
      hide HashU64, BlockHash, Bdev.View, Bdev.Valid, BlockCache.Valid, BlockCache.Now, LazyZero.SeesTo, Seen, StateOk;
      this.layout := layout;
      cache := new BlockCache.Create(base, 16, BlockHash);
      gbuf := new byte[layout.bs](_ => 0);
      new;
    }

    ghost predicate Wired()
      reads cache.base, cache.data, cache.indexes, cache.dirty
    {
      && cache.Valid() && layout.bs == cache.base.blockSize && layout.Valid(cache.base.blockCount)
      && gbuf.Length == layout.bs && gbuf != cache.data && gbuf != cache.dirty
      && forall k :: 0 <= k < cache.indexes.Length ==>
        cache.indexes[k] == NONE || cache.indexes[k] < layout.bitmapBlocks
    }

    ghost function Sees(): (s: Sight)
      reads cache.base, cache.data, cache.indexes, cache.dirty
      requires Wired()
      ensures |s| == cache.base.blockCount
      ensures forall b :: 0 <= b < |s| ==> s[b] == Seen(cache.Now(), cache.slots, b)
      ensures forall b :: 0 <= b < |s| && s[b].Some? ==> |s[b].value| == layout.bs
    {
      SeesTo(cache.base.blockCount)
    }

    ghost function SeesTo(k: nat): (s: Sight)
      reads cache.base, cache.data, cache.indexes, cache.dirty
      requires Wired() && k <= cache.base.blockCount
      ensures |s| == k
      ensures forall b :: 0 <= b < k ==> s[b] == Seen(cache.Now(), cache.slots, b)
      ensures forall b :: 0 <= b < k && s[b].Some? ==> |s[b].value| == layout.bs
    {
      if k == 0 then []
      else
        SeenSized(cache, k - 1);
        SeesTo(k - 1) + [Seen(cache.Now(), cache.slots, k - 1)]
    }

    /** The bitmap can be read. */
    ghost predicate Bitmapped()
      reads cache.base, cache.data, cache.indexes, cache.dirty
      requires Wired()
    {
      BitmapReadable(layout, Sees())
    }

    lemma NotCached(b: nat)
      requires Wired() && layout.bitmapBlocks <= b < cache.base.blockCount
      ensures b !in cache.indexes[..]
    {}

    /** What the base holds behind the cache. */
    ghost function Held(): (c: Contents)
      reads cache.base, cache.data, cache.indexes, cache.dirty
      requires Wired()
      ensures |c| == cache.base.blockCount
    {
      ContentsOf(cache.base)
    }

    lemma SeesReceded(s: Sight, base: Contents, was: State, lost: set<nat>)
      requires Wired() && Comparable(was, cache.Now(), cache.slots) && SetBack(was, cache.Now(), cache.slots, lost)
      requires |s| == |base| == cache.base.blockCount <= NONE && was.base == base
      requires forall b :: 0 <= b < |s| ==> s[b] == Seen(was, cache.slots, b)
      requires forall k :: 0 <= k < |was.tags| ==> was.tags[k] == NONE || was.tags[k] < layout.bitmapBlocks
      ensures Recedes(layout, s, base, Sees(), lost)
    {
      hide BlockCache.Valid, BlockCache.Now, LazyZero.SeesTo, BitGet;
    }

    lemma TagsInRange()
      requires Wired()
      ensures cache.Wired() && cache.base.blockCount <= NONE && |cache.Now().tags| == cache.indexes.Length
      ensures cache.Now().base == Held()
      ensures forall k :: 0 <= k < |cache.Now().tags| ==> cache.Now().tags[k] == cache.indexes[k]
      ensures Proper(layout, Sees())
    {
      hide Bdev.View, Bdev.Valid, LazyZero.SeesTo, BitGet, Seen, Grid;
    }

    /** The block that has to make room in the cache may be lost. */
    method ReadBitmap(b: nat) returns (ok: bool, ghost lost: set<nat>)
      requires Wired() && b < layout.bitmapBlocks
      modifies cache.base, cache.data, cache.indexes, cache.dirty
      ensures Wired() && ok == old(Sees())[b].Some?
      ensures Recedes(layout, old(Sees()), old(Held()), Sees(), lost) && b !in lost
      ensures cache.base.reliable || old(cache.indexes[cache.slots.Of(b)]) in {b, NONE} ==> lost == {}
      ensures cache.indexes[cache.slots.Of(b)] == if ok then b else NONE
    {
      hide BlockCache.Valid, BlockCache.Now, LazyZero.SeesTo, Seen, Bdev.Valid, Bdev.View, SetBack;
      TagsInRange();
      ghost var s, base, was := Sees(), Held(), cache.Now();
      ok, lost := cache.ReadBlock(b);
      SeesReceded(s, base, was, lost);
    }

    /** The slot of the chunk's bitmap block holds that block, or nothing. */
    ghost predicate Settled(chunk: nat)
      reads cache.indexes
      requires layout.bs > 0 && cache.slots.size == cache.indexes.Length > 0
    {
      var b := MapBlock(layout, chunk);
      cache.indexes[cache.slots.Of(b)] == b || cache.indexes[cache.slots.Of(b)] == NONE
    }

    /** An unreadable bitmap block counts as not initialised. */
    method ChunkUsable(chunk: nat) returns (usable: bool, ghost lost: set<nat>)
      requires Wired() && MapBlock(layout, chunk) < layout.bitmapBlocks
      modifies cache.base, cache.data, cache.indexes, cache.dirty
      ensures Wired() && Recedes(layout, old(Sees()), old(Held()), Sees(), lost) && MapBlock(layout, chunk) !in lost
      ensures cache.base.reliable || old(Settled(chunk)) ==> lost == {}
      ensures cache.indexes[cache.slots.Of(MapBlock(layout, chunk))] in {MapBlock(layout, chunk), NONE}
      ensures var seen := Sees()[MapBlock(layout, chunk)];
        usable == (seen.Some? && BitGet(seen.value, MapBit(layout, chunk)))
    {
      hide BlockCache.Valid, BlockCache.Now, LazyZero.SeesTo, BitGet, Seen, Bdev.Valid, Bdev.View;
      var b := MapBlock(layout, chunk);
      var ok;
      ok, lost := ReadBitmap(b);
      if !ok { return false, lost; }
      var bl := cache.CachedBlock(b);
      usable := BitGet(bl, MapBit(layout, chunk));
    }

    /** Data blocks are never cached, so they are read and written on the base. */
    method WriteData(b: nat, from: Block) returns (ok: bool)
      requires Wired() && layout.bitmapBlocks <= b < cache.base.blockCount && |from| == layout.bs
      modifies cache.base
      ensures Wired() && Sees() == old(Sees())[b := Sees()[b]]
      ensures if ok then Sees()[b] == Some(from) else Sees()[b] in {old(Sees())[b], None}
      ensures cache.base.keeping && !cache.base.verified && !ok ==> Sees() == old(Sees())
      ensures cache.base.Steady() && !ok ==> Sees()[b] == None
      ensures cache.base.reliable ==> ok
    {
      hide BlockCache.Valid, BlockCache.Now, LazyZero.SeesTo, Seen, Bdev.Steady;
      NotCached(b);
      ok := cache.WriteAround(b, from);
    }

    /** Zeroes the data blocks of a chunk; the last chunk of the device may be short. */
    method ClearChunk(chunk: nat) returns (ok: bool)
      requires Wired()
      modifies cache.base, gbuf
      ensures Wired() && gbuf[..] == Zeros(layout.bs)
      ensures forall b :: 0 <= b < |Sees()| && !InChunk(layout, chunk, b) ==> Sees()[b] == old(Sees())[b]
      ensures ok ==> forall b :: 0 <= b < |Sees()| && InChunk(layout, chunk, b) ==> Sees()[b] == Some(Zeros(layout.bs))
      ensures cache.base.Steady() && !ok ==>
                exists b :: 0 <= b < |Sees()| && InChunk(layout, chunk, b) && Sees()[b].None?
      ensures cache.base.reliable ==> ok
    {
      hide BlockCache.Valid, BlockCache.Now, LazyZero.SeesTo, LazyZero.Sees, Seen, Zeros, InChunk, ClearedTo;
      hide Bdev.Steady;
      Fill(gbuf);
      ghost var s := Sees();
      NothingCleared(layout, s, chunk);
      var baseBlock := chunk * layout.chunkSize + layout.bitmapBlocks + 1;
      for i := 0 to layout.chunkSize
        invariant Wired() && gbuf[..] == Zeros(layout.bs) && ClearedTo(layout, s, Sees(), chunk, i)
      {
        ghost var t := Sees();
        if baseBlock + i < cache.base.blockCount {
          ok := WriteData(baseBlock + i, gbuf[..]);
          OneMoreCleared(layout, s, t, Sees(), chunk, i, baseBlock + i);
          if !ok { return; }
        } else {
          NoneThere(layout, s, t, chunk, i, baseBlock + i);
        }
      }
      AllCleared(layout, s, Sees(), chunk);
      ok := true;
    }

    /** Sets the bit of a chunk in the cached bitmap. */
    method SetChunkUsable(chunk: nat) returns (ok: bool, ghost lost: set<nat>)
      requires Wired() && MapBlock(layout, chunk) < layout.bitmapBlocks
      modifies cache.base, cache.data, cache.indexes, cache.dirty
      ensures Wired() && ok == old(Sees())[MapBlock(layout, chunk)].Some? && MapBlock(layout, chunk) !in lost
      ensures var b := MapBlock(layout, chunk);
        && Recedes(layout, old(Sees()), old(Held()), Sees()[b := old(Sees())[b]], lost)
        && Sees()[b] == if ok then Some(BitSet(old(Sees())[b].value, MapBit(layout, chunk))) else None
      ensures var b := MapBlock(layout, chunk);
        cache.base.reliable || old(cache.indexes[cache.slots.Of(b)]) in {b, NONE} ==> lost == {}
    {
      hide BlockCache.Valid, BlockCache.Now, LazyZero.SeesTo, Seen, BitSet, MapBlock, Bdev.Valid, Bdev.View;
      var b := MapBlock(layout, chunk);
      ghost var s := Sees();
      ok, lost := ReadBitmap(b);
      if !ok {
        assert Sees()[b := s[b]] == Sees();
        return;
      }
      ghost var t := Sees();
      var bl := cache.CachedBlock(b);
      assert bl == s[b].value;
      cache.WriteBlock(b, BitSet(bl, MapBit(layout, chunk)));
      assert Sees()[b := s[b]] == t;
    }

    /** A block of a chunk that is not set reads as zeros. What the cache has lost meanwhile is not
        the bit of this chunk. */
    method ReadBlock(which: nat, into: array<byte>) returns (ok: bool, ghost lost: set<nat>)
      requires Wired() && which < layout.blockCount && into.Length == layout.bs
      requires into != cache.data && into != cache.dirty
      modifies cache.base, cache.data, cache.indexes, cache.dirty, into
      ensures Wired() && Recedes(layout, old(Sees()), old(Held()), Sees(), lost)
      ensures (cache.base.reliable ==> lost == {}) && (lost == {} ==> Sees() == old(Sees()))
      ensures Proper(layout, old(Sees())) && Proper(layout, Sees())
      ensures ok == Shows(layout, old(Sees()), which).Some?
      ensures ok ==> Some(into[..]) == Shows(layout, old(Sees()), which)
      ensures Shows(layout, Sees(), which) == Shows(layout, old(Sees()), which)
      ensures MapBlock(layout, ChunkOf(layout, which)) < layout.bitmapBlocks
      ensures MapBlock(layout, ChunkOf(layout, which)) !in lost && Settled(ChunkOf(layout, which))
    {
      hide BlockCache.Valid, BlockCache.Now, LazyZero.SeesTo, Seen, MapBlock, MapBit, ChunkOf, BitGet, Zeros;
      hide Bdev.Valid, Bdev.View, Recedes, Proper;
      ghost var s, base := Sees(), Held();
      ChunkInRange(layout, cache.base.blockCount, which);
      TagsInRange();
      var usable;
      usable, lost := ChunkUsable(ChunkOf(layout, which));
      ghost var t := Sees();
      TagsInRange();
      SameBit(layout, s, base, t, lost, which);
      RecedesSame(layout, s, base, t, lost);
      if !usable {
        Fill(into);
        return true, lost;
      }
      NotCached(layout.DataAt(which));
      ok := cache.ReadAround(layout.DataAt(which), into);
      assert Sees() == t;
    }

    method Fill(into: array<byte>)
      requires Wired() && into.Length == layout.bs && into != cache.data && into != cache.dirty
      modifies into
      ensures Wired() && Sees() == old(Sees()) && into[..] == Zeros(layout.bs)
    {
      hide BlockCache.Valid, BlockCache.Now, LazyZero.SeesTo, Seen;
      ghost var s := Sees();
      for i := 0 to layout.bs
        invariant Wired() && Sees() == s
        invariant forall j :: 0 <= j < i ==> into[j] == 0
      {
        into[i] := 0;
      }
    }

    method Initialise(chunk: nat) returns (ok: bool)
      requires Wired() && Proper(layout, Sees()) && MapBlock(layout, chunk) < layout.bitmapBlocks
      requires cache.indexes[cache.slots.Of(MapBlock(layout, chunk))] in {MapBlock(layout, chunk), NONE}
      requires !ChunkSet(layout, Sees(), chunk)
      modifies cache.base, cache.data, cache.indexes, cache.dirty, gbuf
      ensures Wired() && gbuf[..] == Zeros(layout.bs) && Proper(layout, Sees())
      ensures cache.base.reliable && old(Bitmapped()) ==> ok
      ensures Prepared(layout, old(Sees()), Sees(), chunk, ok) && BitmapKept(layout, old(Sees()), Sees(), chunk)
      ensures cache.base.Steady() && !ok ==> Impaired(layout, Sees(), chunk)
    {
      hide BlockCache.Valid, BlockCache.Now, LazyZero.SeesTo, LazyZero.Sees, Seen, MapBlock, MapBit, ChunkSet;
      hide BitSet, ChunkOf, InChunk, Zeros, SameShows, OtherBits, Bdev.Valid, Bdev.View, Bdev.Steady, BitmapKept;
      ghost var t := Sees();
      ok := ClearChunk(chunk);
      ghost var u := Sees();
      TagsInRange();
      Cleared(layout, t, u, chunk);
      if !ok { return; }
      ghost var lost;
      ok, lost := SetChunkUsable(chunk);
      ghost var b := MapBlock(layout, chunk);
      TagsInRange();
      assert Sees() == u[b := Sees()[b]];
      if ok {
        Chosen(layout, u, chunk, Sees());
        PreparedTwice(layout, t, u, Sees(), chunk, false, true);
      } else {
        assert Sees() == u;
      }
    }

    /** Makes sure the chunk is initialised before a write to it. */
    method Prepare(chunk: nat) returns (ok: bool, ghost lost: set<nat>)
      requires Wired() && MapBlock(layout, chunk) < layout.bitmapBlocks
      modifies cache.base, cache.data, cache.indexes, cache.dirty, gbuf
      ensures Wired() && Proper(layout, Sees()) && Lapsed(layout, old(Sees()), old(Held()), Sees(), lost, chunk)
      ensures cache.base.reliable ==> lost == {} && (old(Bitmapped()) ==> ok)
      ensures old(Settled(chunk)) ==> lost == {}
      ensures cache.base.Steady() && !ok ==> Impaired(layout, Sees(), chunk)
      ensures var r := Receded(old(Sees()), Sees(), lost);
        && Proper(layout, r) && Prepared(layout, r, Sees(), chunk, ok) && BitmapKept(layout, r, Sees(), chunk)
        && (ok ==> gbuf[..] == Buffered(layout, r, chunk, old(gbuf[..])))
    {
      hide BlockCache.Valid, BlockCache.Now, LazyZero.SeesTo, LazyZero.Sees, Seen, MapBlock, MapBit, ChunkSet;
      hide BitSet, BitGet, ChunkOf, Zeros, SameShows, OtherBits, Bdev.Valid, Bdev.View, Proper, Recedes, Lapsed;
      hide Buffered, BitmapKept, Prepared, Impaired, Bdev.Steady;
      ghost var s, base, g := Sees(), Held(), gbuf[..];
      TagsInRange();
      var usable;
      usable, lost := ChunkUsable(chunk);
      ghost var t := Sees();
      RecedesSame(layout, s, base, t, lost);
      TagsInRange();
      UsableIs(layout, t, chunk, usable, g);
      if usable {
        ok := true;
        Lapses(layout, s, base, t, t, lost, chunk);
        return;
      }
      ok := Initialise(chunk);
      Lapses(layout, s, base, t, Sees(), lost, chunk);
    }

    /** Writes one block. The layer's own buffer is zeroed while a chunk is initialised, so a
        caller that passes this buffer has zeros stored instead of its data. Up to bitmap blocks that
        the cache has lost, every other block is shown as before. */
    method WriteBlock(which: nat, from: array<byte>) returns (ok: bool, ghost lost: set<nat>)
      requires Wired() && which < layout.blockCount && from.Length == layout.bs
      requires from != cache.data && from != cache.dirty
      modifies cache.base, cache.data, cache.indexes, cache.dirty, gbuf
      ensures Wired() && Proper(layout, Sees()) && MapBlock(layout, ChunkOf(layout, which)) < layout.bitmapBlocks
      ensures Lapsed(layout, old(Sees()), old(Held()), Sees(), lost, ChunkOf(layout, which))
      ensures cache.base.reliable ==> lost == {} && (old(Bitmapped()) ==> ok)
      ensures old(Settled(ChunkOf(layout, which))) ==> lost == {}
      ensures cache.base.Steady() && !ok ==> Impaired(layout, Sees(), ChunkOf(layout, which))
      ensures var r := Receded(old(Sees()), Sees(), lost);
        && Proper(layout, r) && BitmapKept(layout, r, Sees(), ChunkOf(layout, which))
        && WroteOne(layout, r, Sees(), which, ok, old(from[..]), from == gbuf)
        && (cache.base.keeping && !cache.base.verified && !ok ==> SameShows(layout, r, Sees()))
    {
      hide BlockCache.Valid, BlockCache.Now, LazyZero.SeesTo, LazyZero.Sees, Seen, MapBlock, MapBit, ChunkSet, ChunkOf;
      hide Bdev.Valid, Bdev.View, Prepared, Bdev.Steady, BitmapKept, InChunk;
      ChunkInRange(layout, cache.base.blockCount, which);
      ghost var s, base := Sees(), Held();
      ok, lost := Prepare(ChunkOf(layout, which));
      ghost var t := Sees();
      ghost var r := Receded(s, t, lost);
      PreparedIs(layout, r, t, ChunkOf(layout, which), ok);
      if !ok { return; }
      var v := from[..];
      ok := WriteData(layout.DataAt(which), v);
      TagsInRange();
      assert Receded(s, Sees(), lost) == r;
      DataWritten(layout, t, which, Sees()[layout.DataAt(which)], Sees());
      BitmapKeptTwice(layout, r, t, Sees(), ChunkOf(layout, which));
    }

    /** Writes the cached bitmap back. */
    method Flush() returns (ghost lost: set<nat>)
      requires Wired()
      modifies cache.base, cache.indexes, cache.dirty
      ensures Wired() && Recedes(layout, old(Sees()), old(Held()), Sees(), lost)
      ensures (cache.base.reliable ==> lost == {}) && (lost == {} ==> Sees() == old(Sees()))
      ensures forall b :: 0 <= b < cache.base.blockCount ==> cache.base.View(b) == Sees()[b]
    {
      hide BlockCache.Valid, BlockCache.Now, LazyZero.SeesTo, Seen, SetBack, Bdev.Valid, Bdev.View;
      TagsInRange();
      ghost var s, base, was := Sees(), Held(), cache.Now();
      lost := cache.Flush();
      SeesReceded(s, base, was, lost);
      RecedesSame(layout, s, base, Sees(), lost);
    }
  }

  /** After a write to a chunk: bitmap blocks that were lost are what the base still held, or nothing;
      none of them is that of the chunk. */
  ghost predicate Lapsed(l: Layout, s: Sight, base: Contents, s': Sight, lost: set<nat>, chunk: nat)
    requires l.bs > 0
  {
    && |s| == |base| == |s'| && MapBlock(l, chunk) !in lost
    && forall b :: b in lost ==> b < l.bitmapBlocks && b < |s| && s[b].Some? && s'[b] in {base[b], None}
  }

  lemma Lapses(l: Layout, s: Sight, base: Contents, t: Sight, s': Sight, lost: set<nat>, chunk: nat)
    requires l.Valid(|s|) && MapBlock(l, chunk) < l.bitmapBlocks
    requires Recedes(l, s, base, t, lost) && MapBlock(l, chunk) !in lost && BitmapKept(l, t, s', chunk)
    ensures Lapsed(l, s, base, s', lost, chunk) && Receded(s, s', lost) == t
  {}

  lemma UsableIs(l: Layout, t: Sight, chunk: nat, usable: bool, g: Block)
    requires Proper(l, t) && MapBlock(l, chunk) < l.bitmapBlocks
    requires var seen := t[MapBlock(l, chunk)]; usable == (seen.Some? && BitGet(seen.value, MapBit(l, chunk)))
    ensures usable == ChunkSet(l, t, chunk) && Buffered(l, t, chunk, g) == if usable then g else Zeros(l.bs)
    ensures (usable ==> Prepared(l, t, t, chunk, true)) && BitmapKept(l, t, t, chunk)
  {
    hide BitGet, MapBlock, MapBit, Zeros, Shows;
  }

  lemma PreparedIs(l: Layout, s: Sight, s': Sight, chunk: nat, ok: bool)
    requires Proper(l, s) && Proper(l, s') && MapBlock(l, chunk) < l.bitmapBlocks && Prepared(l, s, s', chunk, ok)
    ensures SameShows(l, s, s') && OtherBits(l, s, s', chunk) && (ok ==> ChunkSet(l, s', chunk))
  {}

  lemma BitmapKeptTwice(l: Layout, s: Sight, t: Sight, u: Sight, chunk: nat)
    requires l.Valid(|s|) && l.Valid(|t|) && MapBlock(l, chunk) < l.bitmapBlocks
    requires BitmapKept(l, s, t, chunk) && BitmapKept(l, t, u, chunk)
    ensures BitmapKept(l, s, u, chunk)
  {}

  lemma SameBit(l: Layout, s: Sight, base: Contents, s': Sight, lost: set<nat>, w: nat)
    requires Recedes(l, s, base, s', lost) && Proper(l, s) && Proper(l, s') && w < l.blockCount
    requires MapBlock(l, ChunkOf(l, w)) < l.bitmapBlocks && MapBlock(l, ChunkOf(l, w)) !in lost
    ensures Shows(l, s', w) == Shows(l, s, w)
    ensures s'[MapBlock(l, ChunkOf(l, w))] == s[MapBlock(l, ChunkOf(l, w))] && s'[l.DataAt(w)] == s[l.DataAt(w)]
  {
    hide BitGet, MapBlock, MapBit, ChunkOf, Zeros;
  }

  lemma SeenSized(c: BlockCache, b: nat)
    requires c.Valid() && b < c.base.blockCount
    ensures Seen(c.Now(), c.slots, b).Some? ==> |Seen(c.Now(), c.slots, b).value| == c.base.blockSize
  {
    hide Bdev.View, Bdev.Valid;
  }
}
