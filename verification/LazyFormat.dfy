/** Creating and opening a lazily zeroed device. The bitmap is cleared from base block 2 on but
    looked up from base block 0 on, so that the header doubles as bitmap. */
module LazyFormat {
  import opened Arithmetic
  import opened Bits
  import opened BitVector
  import opened Crc
  import opened Devices
  import opened Endian
  import opened LazyZeroing
  import opened Parity
  import opened PlainArray
  import opened VerifyDevice

  /** LAZY0000 */
  const MAGIC: seq<byte> := [0x4C, 0x41, 0x5A, 0x59, 0x30, 0x30, 0x30, 0x30]
  const DEFAULT_CHUNK: nat := 1024

  ghost predicate Enough(bs: nat, n: nat) { bs >= 32 && n >= 3 }

  function BitmapBlocks(bs: nat, n: nat): (k: nat)
    requires bs >= 32 && n >= 3
  {
    ((n - 1 + DEFAULT_CHUNK - 1) / DEFAULT_CHUNK + bs * 8 - 1) / (bs * 8)
  }

  lemma BitmapFits(bs: nat, n: nat)
    requires Enough(bs, n)
    ensures 1 <= BitmapBlocks(bs, n) && BitmapBlocks(bs, n) + 2 <= n
    ensures BitmapBlocks(bs, n) * (bs * 8) >= (n - 1 + DEFAULT_CHUNK - 1) / DEFAULT_CHUNK
  {
    var bits: nat := (n - 1 + DEFAULT_CHUNK - 1) / DEFAULT_CHUNK;
    var per: nat := bs * 8;
    var k := BitmapBlocks(bs, n);
    assert 1 <= bits <= n - 2;
    DivMod(bits + per - 1, per);
    assert k == (bits + per - 1) / per;
    if k == 0 { MulMonotone(per, k, 0); }
    MulSuccessor(per, k);
    assert k * per >= bits;
    if k > bits {
      MulMonotone(per, bits + 1, k);
      MulSuccessor(per, bits);
      MulMonotone(bits, 1, per);
    }
  }

  function Created(bs: nat, n: nat): (l: Layout)
    requires bs >= 32 && n >= 3
    ensures l.Valid(n) && l.bitmapBlocks >= 1 && l.blockCount >= 1
  {
    BitmapFits(bs, n);
    var k := BitmapBlocks(bs, n);
    var l := Layout(bs, k, DEFAULT_CHUNK, n - 1 - k);
    assert l.Chunks() <= (n - 1 + DEFAULT_CHUNK - 1) / DEFAULT_CHUNK;
    l
  }

  function Fields(l: Layout, n: nat): (h: seq<byte>)
    ensures |h| == 32
  {
    MAGIC + Pack(8, n) + Pack(8, l.bitmapBlocks) + Pack(8, l.chunkSize)
  }

  function HeaderOf(l: Layout, n: nat): (h: Block)
    requires l.bs >= 32
    ensures |h| == l.bs
  {
    Fields(l, n) + Zeros(l.bs - 32)
  }

  /** A device is created in chunks of 1024 blocks, with just the bitmap that chunks for all but one of
      the base blocks need. */
  lemma CreatedIs(bs: nat, n: nat, chunks: nat)
    requires Enough(bs, n) && Least(chunks, n - 1, 1024)
    ensures var l := Created(bs, n);
      && l.bs == bs && l.chunkSize == 1024 && Least(l.bitmapBlocks, chunks, 8 * bs)
      && l.blockCount == n - 1 - l.bitmapBlocks
  {
    hide Least;
    RoundedUp(n - 1, DEFAULT_CHUNK);
    LeastIsOne(chunks, (n - 1 + DEFAULT_CHUNK - 1) / DEFAULT_CHUNK, n - 1, DEFAULT_CHUNK);
    RoundedUp(chunks, bs * 8);
    assert bs * 8 == 8 * bs;
  }

  lemma LeastIsOne(k: nat, m: nat, n: nat, d: nat)
    requires d > 0 && Least(k, n, d) && Least(m, n, d)
    ensures k == m
  {
    if k < m { MulMonotone(d, k, m - 1); } else if m < k { MulMonotone(d, m, k - 1); }
  }

  /** The header: LAZY0000, then the blocks of the base, those of the bitmap, and the blocks of a chunk,
      each in eight bytes, the most significant first; zeros to its end. */
  lemma HeaderIs(bs: nat, n: nat)
    requires Enough(bs, n)
    ensures var l := Created(bs, n);
      var h := HeaderOf(l, n);
      && h[..8] == [0x4c, 0x41, 0x5a, 0x59, 0x30, 0x30, 0x30, 0x30]
      && IsBigEndian(h[8..16], n) && IsBigEndian(h[16..24], l.bitmapBlocks)
      && h[24..32] == [0, 0, 0, 0, 0, 0, 4, 0] && h[32..] == Zeros(bs - 32)
  {
    hide Pack, IsBigEndian, Zeros;
    var l := Created(bs, n);
    var h := HeaderOf(l, n);
    assert h[..8] == MAGIC && h[8..16] == Pack(8, n) && h[16..24] == Pack(8, l.bitmapBlocks);
    assert h[24..32] == Pack(8, l.chunkSize) && h[32..] == Zeros(bs - 32);
    PackIsBigEndian(8, n);
    PackIsBigEndian(8, l.bitmapBlocks);
    ChunkSizeBytes();
  }

  lemma ChunkSizeBytes()
    ensures Pack(8, 1024) == [0, 0, 0, 0, 0, 0, 4, 0]
  {
    assert Pack(6, 0) == [0, 0, 0, 0, 0, 0];
    assert Pack(8, 1024) == Pack(7, 4) + [0] && Pack(7, 4) == Pack(6, 0) + [4];
  }

  /** What creation leaves on the base: block 1 is whatever it was. */
  ghost predicate Fresh(l: Layout, s: Contents)
    requires l.bs >= 32
  {
    && Proper(l, s) && s[0] == Some(HeaderOf(l, |s|))
    && forall b :: 2 <= b <= l.bitmapBlocks + 1 && b < |s| ==> s[b] == Some(Zeros(l.bs))
  }

  ghost function Formatted(l: Layout, n: nat, s: Contents, b: nat): Option<Block>
    requires l.bs >= 32 && b < |s|
  {
    if b == 0 then Some(HeaderOf(l, n)) else if 2 <= b <= l.bitmapBlocks + 1 then Some(Zeros(l.bs)) else s[b]
  }

  /** Too small a device is refused; otherwise the header and the blocks after the next one are
      written. */
  method LazyzeroCreate(base: Bdev) returns (ok: bool)
    requires base.Valid() && base.Separate() && base.blockCount <= NONE
    modifies base
    ensures base.Valid()
    ensures base.blockSize < 32 || base.blockCount < 3 ==> !ok && ContentsOf(base) == old(ContentsOf(base))
    ensures base.blockSize >= 32 && base.blockCount >= 3 && base.reliable ==> ok
    ensures ok ==> var l := Created(base.blockSize, base.blockCount);
      && Fresh(l, ContentsOf(base))
      && forall b :: 0 <= b < base.blockCount && (b == 1 || b > l.bitmapBlocks + 1) ==>
        ContentsOf(base)[b] == old(ContentsOf(base))[b]
  {
    hide Bdev.View, Bdev.Valid, Zeros, Pack;
    if base.blockSize < 32 || base.blockCount < 3 { return false; }
    var l := Created(base.blockSize, base.blockCount);
    BitmapFits(base.blockSize, base.blockCount);
    ghost var s := ContentsOf(base);
    ok := base.WriteBlock(0, HeaderOf(l, base.blockCount));
    if !ok { return; }
    for i := 1 to l.bitmapBlocks + 1
      invariant base.Valid()
      invariant forall b :: 0 <= b < base.blockCount && b <= i ==>
        ContentsOf(base)[b] == Formatted(l, base.blockCount, s, b)
      invariant forall b :: 0 <= b < base.blockCount && b > i ==> ContentsOf(base)[b] == s[b]
    {
      ok := base.WriteBlock(i + 1, Zeros(l.bs));
      if !ok { return; }
    }
    ok := true;
    assert ContentsOf(base)[0] == Some(HeaderOf(l, |ContentsOf(base)|));
  }

  // ---- does a created device read as zeros?

  lemma HeaderBits(l: Layout, n: nat)
    requires l.bs >= 32
    ensures !BitGet(HeaderOf(l, n), 0) && !BitGet(HeaderOf(l, n), 1) && BitGet(HeaderOf(l, n), 2)
  {
    hide Pack, Zeros;
    assert HeaderOf(l, n)[0] == 76;
    assert BitAt(76, 1) == BitAt(38, 0) && BitAt(76, 2) == BitAt(38, 1) == BitAt(19, 0);
  }

  ghost predicate ReadsZero(l: Layout, s: Contents)
    requires Proper(l, s)
  {
    forall w :: 0 <= w < l.blockCount ==> Shows(l, s, w) == Some(Zeros(l.bs))
  }

  ghost predicate AlwaysReadsZero(l: Layout)
    requires l.bs >= 32
  {
    forall s :: Fresh(l, s) ==> ReadsZero(l, s)
  }

  /** Old contents of the base show through as soon as there is a third chunk. */
  lemma FreshReadsZero(bs: nat, n: nat)
    requires Enough(bs, n)
    ensures AlwaysReadsZero(Created(bs, n)) <==> Created(bs, n).blockCount <= 2048
  {
    var l := Created(bs, n);
    if l.blockCount <= 2 * DEFAULT_CHUNK {
      forall s | Fresh(l, s)
        ensures ReadsZero(l, s)
      {
        SmallReadsZero(l, s);
      }
    } else {
      var s := Stale(l, n);
      StaleShows(l, n);
      assert Fresh(l, s) && !ReadsZero(l, s);
    }
  }

  lemma FirstBitmapBlock(l: Layout, chunk: nat)
    requires l.bs >= 32 && chunk < 256
    ensures MapBlock(l, chunk) == 0 && MapBit(l, chunk) == chunk
  {
    DivModUnique(chunk, l.BitsPerBlock(), 0, chunk);
  }

  lemma SmallReadsZero(l: Layout, s: Contents)
    requires l.bs >= 32 && Fresh(l, s) && l.chunkSize == DEFAULT_CHUNK && l.blockCount <= 2 * DEFAULT_CHUNK
    ensures ReadsZero(l, s)
  {
    hide BitGet, HeaderOf, Zeros, MapBlock, MapBit;
    HeaderBits(l, |s|);
    forall w | 0 <= w < l.blockCount
      ensures Shows(l, s, w) == Some(Zeros(l.bs))
    {
      ChunkInRange(l, |s|, w);
      FirstBitmapBlock(l, ChunkOf(l, w));
    }
  }

  ghost function StaleBlock(l: Layout, n: nat, b: nat): (v: Block)
    requires l.bs >= 32
    ensures |v| == l.bs
  {
    if b == 0 then HeaderOf(l, n) else if b == l.DataAt(2 * DEFAULT_CHUNK) then [1] + Zeros(l.bs - 1) else Zeros(l.bs)
  }

  ghost function Stale(l: Layout, n: nat): (s: Contents)
    requires l.bs >= 32 && l.Valid(n)
    ensures |s| == n && forall b :: 0 <= b < n ==> s[b] == Some(StaleBlock(l, n, b))
  {
    seq(n, b requires 0 <= b < n => Some(StaleBlock(l, n, b)))
  }

  lemma StaleShows(l: Layout, n: nat)
    requires l.bs >= 32 && l.Valid(n) && l.bitmapBlocks >= 1 && l.chunkSize == DEFAULT_CHUNK
    requires l.blockCount > 2 * DEFAULT_CHUNK
    ensures Fresh(l, Stale(l, n)) && !ReadsZero(l, Stale(l, n))
  {
    hide BitGet, HeaderOf, MapBlock, MapBit;
    var s, w := Stale(l, n), 2 * DEFAULT_CHUNK;
    HeaderBits(l, n);
    FirstBitmapBlock(l, 2);
    ChunkInRange(l, n, w);
    assert ChunkOf(l, w) == 2;
    assert forall b :: 0 <= b < n ==> s[b].Some? && |s[b].value| == l.bs;
    assert Proper(l, s);
    assert Shows(l, s, w) == Some([1] + Zeros(l.bs - 1));
    assert Zeros(l.bs)[0] == 0;
  }

  // ---- can it be opened again?

  /** Reading the header. On a header that no creation writes, with no chunk size or with more
      bitmap than device, the source divides by zero or wraps around. */
  function OpenLayout(bs: nat, n: nat, h: Block): (l: Option<Layout>)
    requires bs >= 32 && |h| == bs
  {
    if h[..8] != MAGIC || Unpack(h[8..16]) != n then None
    else
      var bitmapBlocks, chunkSize := Unpack(h[16..24]), Unpack(h[24..32]);
      if chunkSize == 0 || bitmapBlocks + 1 > n then None
      else if bitmapBlocks * (bs * 8) < (n - 1 - bitmapBlocks + chunkSize - 1) / chunkSize then None
      else Some(Layout(bs, bitmapBlocks, chunkSize, n - 1 - bitmapBlocks))
  }

  lemma FieldsParts(l: Layout, n: nat, h: Block)
    requires |h| >= 32
    ensures h[..32] == Fields(l, n) <==>
      && h[..8] == MAGIC && h[8..16] == Pack(8, n)
      && h[16..24] == Pack(8, l.bitmapBlocks) && h[24..32] == Pack(8, l.chunkSize)
  {
    hide Pack;
    var a, b, c := Pack(8, n), Pack(8, l.bitmapBlocks), Pack(8, l.chunkSize);
    assert h[..32] == h[..8] + h[8..16] + h[16..24] + h[24..32];
    var f := MAGIC + a + b + c;
    assert f[..8] == MAGIC && f[8..16] == a && f[16..24] == b && f[24..32] == c;
    if h[..32] == f {
      assert h[..32][..8] == h[..8] && h[..32][8..16] == h[8..16];
      assert h[..32][16..24] == h[16..24] && h[..32][24..32] == h[24..32];
    }
  }

  /** A header opens as a layout exactly when its fields are those of that layout and it fits the base. */
  lemma OpensExactly(bs: nat, n: nat, h: Block, l: Layout)
    requires Enough(bs, n) && n <= NONE && |h| == bs
    ensures OpenLayout(bs, n, h) == Some(l) <==>
      l.bs == bs && l.Valid(n) && l.chunkSize <= NONE && h[..32] == Fields(l, n)
  {
    hide Pack, Unpack, Fields;
    FieldsParts(l, n, h);
    EightBytes(h[8..16], n);
    FieldBelow(h[16..24]);
    FieldBelow(h[24..32]);
    if l.bitmapBlocks <= NONE { EightBytes(h[16..24], l.bitmapBlocks); }
    if l.chunkSize <= NONE { EightBytes(h[24..32], l.chunkSize); }
  }

  lemma FieldBelow(b: seq<byte>)
    requires |b| == 8
    ensures Unpack(b) <= NONE
  {
    hide Unpack;
    assert Pow256(1) == 256 && Pow256(2) == 65536 && Pow256(3) == 16777216 && Pow256(4) == 4294967296;
    assert Pow256(8) == NONE + 1;
    UnpackBelow(b);
  }

  /** The device is recognised as what was created exactly when the fields are intact. */
  lemma OpensAsCreated(bs: nat, n: nat, h: Block)
    requires Enough(bs, n) && n <= NONE && |h| == bs
    ensures OpenLayout(bs, n, h) == Some(Created(bs, n)) <==> h[..32] == Fields(Created(bs, n), n)
  {
    hide Pack, Unpack, Fields;
    var l := Created(bs, n);
    BitmapFits(bs, n);
    FieldsParts(l, n, h);
    EightBytes(h[8..16], n);
    EightBytes(h[16..24], l.bitmapBlocks);
    EightBytes(h[24..32], l.chunkSize);
    assert l.Valid(n);
  }

  lemma EightBytes(b: seq<byte>, v: nat)
    requires |b| == 8 && v <= NONE
    ensures b == Pack(8, v) <==> Unpack(b) == v
  {
    hide Pack, Unpack;
    assert Pow256(1) == 256 && Pow256(2) == 65536 && Pow256(3) == 16777216 && Pow256(4) == 4294967296;
    assert Pow256(8) == NONE + 1;
    UnpackSmall(8, v);
    PackUnpack(b);
  }

  /** Initialising a chunk sets its bit in the header, after which the device opens as before
      exactly when that bit was set already or lies in the padding. */
  lemma ReopensAfterWrite(bs: nat, n: nat, chunk: nat)
    requires Enough(bs, n) && n <= NONE && chunk < 8 * bs
    ensures var h := HeaderOf(Created(bs, n), n);
      OpenLayout(bs, n, BitSet(h, chunk)) == Some(Created(bs, n)) <==> BitGet(h, chunk) || chunk >= 256
  {
    hide Pack, Unpack, Zeros, BitGet, BitSet, OpenLayout, Fields;
    var l := Created(bs, n);
    var h := HeaderOf(l, n);
    var h' := BitSet(h, chunk);
    OpensAsCreated(bs, n, h');
    SetPrefix(h, chunk);
    assert h[..32] == Fields(l, n);
  }

  lemma SetPrefix(h: Block, chunk: nat)
    requires |h| >= 32 && chunk < 8 * |h|
    ensures BitSet(h, chunk)[..32] == h[..32] <==> BitGet(h, chunk) || chunk >= 256
  {
    hide BitAt, SetAt;
    var h' := BitSet(h, chunk);
    if BitGet(h, chunk) { SetAgain(h[chunk / 8], chunk % 8); }
    if h'[..32] == h[..32] && chunk < 256 {
      assert h'[..32][chunk / 8] == h[..32][chunk / 8];
      assert BitGet(h', chunk);
    }
  }

  lemma {:induction false} SetAgain(b: nat, k: nat)
    requires BitAt(b, k)
    ensures SetAt(b, k) == b
    decreases k
  {
    if k > 0 { SetAgain(b / 2, k - 1); }
  }

  /** The first write to a new device makes it unrecognisable once the cache is flushed. */
  lemma FirstWriteBreaksReopen(bs: nat, n: nat)
    requires Enough(bs, n) && n <= NONE
    ensures OpenLayout(bs, n, BitSet(HeaderOf(Created(bs, n), n), 0)) != Some(Created(bs, n))
  {
    hide Pack, Unpack, Zeros, BitGet, BitSet, OpenLayout, HeaderOf;
    ReopensAfterWrite(bs, n, 0);
    HeaderBits(Created(bs, n), n);
  }
}
