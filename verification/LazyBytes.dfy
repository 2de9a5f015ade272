/** Writes of bytes to the lazily zeroed device, as the byte interface does them: parts of blocks go
    through the very buffer that the device zeroes when it initialises a chunk. */
module LazyBytes {
  import opened Arithmetic
  import opened Bits
  import opened BlockCaching
  import ByteAccess
  import opened Crc
  import opened Devices
  import opened LazyRuns
  import opened LazyZeroing
  import opened Parity
  import opened PlainArray

  /** The new bytes arrive when the chunk has been initialised before; otherwise zeros are stored. */
  ghost function Stored(l: Layout, s: Sight, which: nat, skip: nat, part: seq<byte>): Option<Block>
    requires Proper(l, s) && which < l.blockCount && skip + |part| <= l.bs
  {
    ChunkInRange(l, |s|, which);
    if !ChunkSet(l, s, ChunkOf(l, which)) then Some(Zeros(l.bs))
    else if Shows(l, s, which).Some? && |Shows(l, s, which).value| == l.bs then
      Some(Splice(Shows(l, s, which).value, skip, part))
    else None
  }

  /** The chunk of the block is initialised, no other has become so. */
  ghost predicate Marked(l: Layout, s: Sight, s': Sight, which: nat)
    requires Proper(l, s) && Proper(l, s') && which < l.blockCount
  {
    ChunkInRange(l, |s|, which);
    OtherBits(l, s, s', ChunkOf(l, which)) && ChunkSet(l, s', ChunkOf(l, which))
  }

  /** Bytes for one block: all of it from the caller's memory, or part of it through the buffer. */
  datatype Piece = Piece(which: nat, skip: nat, bytes: seq<byte>, whole: bool) {
    predicate Fits(l: Layout) {
      which < l.blockCount && skip + |bytes| <= l.bs && (whole ==> |bytes| == l.bs)
    }
  }

  /** Why a piece may fail where failed writes lose the block: the block it is part of cannot be read, or
      its chunk is impaired. */
  ghost predicate Stopped(l: Layout, a: Sides, p: Piece, b: Sides) {
    && Proper(l, a.sees) && Proper(l, b.sees) && p.Fits(l)
    && (ChunkInRange(l, |b.sees|, p.which);
        (!p.whole && ShownIn(l, a.sees)[p.which].None?) || Impaired(l, b.sees, ChunkOf(l, p.which)))
  }

  /** What becomes of one piece, up to the bitmap blocks that are lost meanwhile: it is stored; or it is
      not, and its block is as it was or unreadable. */
  ghost predicate PieceStep(l: Layout, a: Sides, p: Piece, ok: bool, lost: set<nat>, b: Sides, steady: bool) {
    && Proper(l, a.sees) && Proper(l, b.sees) && |a.sees| == |b.sees| && p.Fits(l)
    && (ChunkInRange(l, |a.sees|, p.which);
        var r := Receded(a.sees, b.sees, lost);
        && Lapsed(l, a.sees, a.held, b.sees, lost, ChunkOf(l, p.which))
        && Proper(l, r) && BitmapKept(l, r, b.sees, ChunkOf(l, p.which))
        && if ok then
             && Marked(l, r, b.sees, p.which) && (p.whole || ShownIn(l, a.sees)[p.which].Some?)
             && ShownIn(l, b.sees) == ShownIn(l, r)[p.which :=
                  if p.whole then Some(p.bytes) else Stored(l, r, p.which, p.skip, p.bytes)]
           else
             && ShownIn(l, b.sees) in {ShownIn(l, r), ShownIn(l, r)[p.which := None]}
             && (steady ==> Stopped(l, a, p, b)))
  }

  /** Read a block into the layer's own buffer, replace the bytes from skip on, write it back. */
  method PutPart(dev: LazyZero, which: nat, skip: nat, part: seq<byte>) returns (ok: bool, ghost lost: set<nat>)
    requires Usable(dev) && which < dev.layout.blockCount && skip + |part| <= dev.layout.bs
    modifies dev.cache.base, dev.cache.data, dev.cache.indexes, dev.cache.dirty, dev.gbuf
    ensures Usable(dev)
    ensures
      var p, steady := Piece(which, skip, part, false), dev.cache.base.Steady();
      PieceStep(dev.layout, old(SidesOf(dev)), p, ok, lost, SidesOf(dev), steady)
    ensures dev.cache.base.reliable ==> lost == {}
    ensures old(Working(dev)) ==> Working(dev) && ok == old(Shown(dev))[which].Some?
    ensures old(Working(dev)) && !ok ==> Shown(dev) == old(Shown(dev))
  {
    hide Bdev.Valid, BlockCache.Valid, BlockCache.Now, LazyZero.SeesTo, LazyZero.Sees, Shows, ChunkSet, ShownTo;
    hide Zeros, Splice, BitmapKept, Lapsed, Recedes, WroteOne, LazyZero.Held, LazyZero.Settled, MapBlock, ChunkOf;
    hide Marked, Stored, Impaired, Bdev.Steady;
    ghost var l, s, base := dev.layout, dev.Sees(), dev.Held();
    ok, lost := dev.ReadBlock(which, dev.gbuf);
    ghost var t := dev.Sees();
    SightsApart(l, s, base, t, lost, which);
    if !ok { return; }
    ghost var v := dev.gbuf[..];
    ByteAccess.Patch(dev.gbuf, skip, part);
    assert dev.Sees() == t;
    ghost var more;
    ok, more := dev.WriteBlock(which, dev.gbuf);
    assert Receded(t, dev.Sees(), more) == t;
    Lapses(l, s, base, t, dev.Sees(), lost, ChunkOf(l, which));
    PartWritten(l, t, dev.Sees(), which, skip, part, v, ok);
    if old(Working(dev)) { KeptReadable(l, t, dev.Sees(), ChunkOf(l, which)); }
  }

  lemma SightsApart(l: Layout, s: Sight, base: Contents, t: Sight, lost: set<nat>, which: nat)
    requires Proper(l, s) && Proper(l, t) && Recedes(l, s, base, t, lost) && which < l.blockCount
    requires MapBlock(l, ChunkOf(l, which)) < l.bitmapBlocks && MapBlock(l, ChunkOf(l, which)) !in lost
    ensures Receded(s, t, lost) == t && BitmapKept(l, t, t, ChunkOf(l, which))
    ensures Lapsed(l, s, base, t, lost, ChunkOf(l, which)) && (lost == {} ==> t == s)
  {}

  /** The patched block is written through the buffer. */
  lemma PartWritten(l: Layout, t: Sight, s': Sight, which: nat, skip: nat, part: seq<byte>, v: Block, ok: bool)
    requires Proper(l, t) && Proper(l, s') && |t| == |s'| && which < l.blockCount && skip + |part| <= l.bs
    requires Shows(l, t, which) == Some(v) && |v| == l.bs
    requires WroteOne(l, t, s', which, ok, Splice(v, skip, part), true)
    ensures ok ==> Marked(l, t, s', which) && ShownIn(l, s') == ShownIn(l, t)[which := Stored(l, t, which, skip, part)]
    ensures !ok ==> ShownIn(l, s') in {ShownIn(l, t), ShownIn(l, t)[which := None]}
  {
    hide Shows, ChunkSet, ShownTo, Zeros, Splice, MapBlock, ChunkOf;
    ChunkInRange(l, |t|, which);
    var c, c' := ShownIn(l, t), ShownIn(l, s');
    assert c' == c[which := c'[which]];
    assert c[which := c[which]] == c;
  }

  /** The part is stored as asked exactly when the chunk was initialised or the part is zeros. */
  lemma PartStoredExactly(l: Layout, s: Sight, which: nat, skip: nat, part: seq<byte>)
    requires Proper(l, s) && which < l.blockCount && skip + |part| <= l.bs
    requires Shows(l, s, which).Some? && |Shows(l, s, which).value| == l.bs
    ensures MapBlock(l, ChunkOf(l, which)) < l.bitmapBlocks
    ensures Stored(l, s, which, skip, part) == Some(Splice(Shows(l, s, which).value, skip, part))
      <==> ChunkSet(l, s, ChunkOf(l, which)) || part == Zeros(|part|)
  {
    hide ChunkSet;
    ChunkInRange(l, |s|, which);
    if !ChunkSet(l, s, ChunkOf(l, which)) { ZeroPart(l.bs, skip, part); }
  }

  lemma ZeroPart(bs: nat, skip: nat, part: seq<byte>)
    requires skip + |part| <= bs
    ensures Splice(Zeros(bs), skip, part) == Zeros(bs) <==> part == Zeros(|part|)
  {
    var r := Splice(Zeros(bs), skip, part);
    if r == Zeros(bs) {
      forall j | 0 <= j < |part|
        ensures part[j] == 0
      {
        assert r[skip + j] == part[j];
      }
    }
  }

  // ---- the whole of a write

  /** The blocks a write touches, and whether the first one is entered in the middle. */
  datatype Span = Span(first: nat, entered: bool, last: nat)

  function SpanOf(bs: nat, start: nat, len: nat): Span
    requires bs > 0 && len > 0
  {
    Span(start / bs, start % bs != 0, ByteAccess.LastBlock(start, len, bs))
  }

  /** The block of byte i of a write. */
  function BlockAt(bs: nat, start: nat, i: nat): nat
    requires bs > 0
  {
    Quotient(start + i, bs)
  }

  /** Block b is written through the buffer while its chunk is initialised, so that zeros arrive: it
      is the last block, or a first one entered in the middle, its chunk has not been initialised
      before, nor by the block written before it. */
  ghost predicate Wiped(l: Layout, s: Sight, span: Span, b: nat)
    requires Proper(l, s) && b < l.blockCount
  {
    ChunkInRange(l, |s|, b);
    && (b == span.last || (b == span.first && span.entered))
    && !ChunkSet(l, s, ChunkOf(l, b))
    && (b <= span.first || ChunkOf(l, b - 1) != ChunkOf(l, b))
  }

  /** Byte i of the write is wiped. */
  ghost predicate ByteWiped(l: Layout, s: Sight, start: nat, len: nat, i: nat)
    requires Proper(l, s) && i < len
  {
    var b := BlockAt(l.bs, start, i);
    b < l.blockCount && Wiped(l, s, SpanOf(l.bs, start, len), b)
  }

  /** What arrives of the bytes that are written. */
  ghost function Arriving(l: Layout, s: Sight, start: nat, from: seq<byte>): (r: seq<byte>)
    requires Proper(l, s)
    ensures |r| == |from|
    ensures forall i: nat :: i < |from| ==> r[i] == if ByteWiped(l, s, start, |from|, i) then 0 else from[i]
  {
    seq(|from|, i requires 0 <= i < |from| => if ByteWiped(l, s, start, |from|, i) then 0 else from[i])
  }

  /** The bytes arrive as they are exactly when all that is wiped are zeros. */
  lemma ArrivesExactly(l: Layout, s: Sight, start: nat, from: seq<byte>)
    requires Proper(l, s)
    ensures Arriving(l, s, start, from) == from <==>
      forall i: nat :: i < |from| && ByteWiped(l, s, start, |from|, i) ==> from[i] == 0
  {
    hide ByteWiped;
    var r := Arriving(l, s, start, from);
    if r == from {
      forall i: nat | i < |from| && ByteWiped(l, s, start, |from|, i)
        ensures from[i] == 0
      {
        assert r[i] == 0;
      }
    }
  }

  /** The piece of it that falls into block sb. */
  lemma PieceArrives(l: Layout, s: Sight, start: nat, from: seq<byte>, at: nat, n: nat, sb: nat, skip: nat)
    requires Proper(l, s) && from != []
    requires at + n <= |from| && start + at == sb * l.bs + skip && skip + n <= l.bs && 0 < n && sb < l.blockCount
    ensures Arriving(l, s, start, from)[at..at + n]
         == if Wiped(l, s, SpanOf(l.bs, start, |from|), sb) then Zeros(n) else from[at..at + n]
  {
    hide Wiped, SpanOf, BlockAt, Proper;
    forall i: nat | at <= i < at + n
      ensures BlockAt(l.bs, start, i) == sb
    {
      ByteInBlock(l.bs, start, i, sb, skip + (i - at));
    }
  }

  lemma ByteInBlock(bs: nat, start: nat, i: nat, sb: nat, r: nat)
    requires start + i == sb * bs + r && r < bs
    ensures BlockAt(bs, start, i) == sb
  {
    DivModUnique(start + i, bs, sb, r);
  }

  /** Of the chunks, those of the blocks from first to before sb have been initialised. */
  ghost predicate BitsAt(l: Layout, s: Sight, now: Sight, first: nat, sb: nat)
    requires Proper(l, s) && Proper(l, now)
  {
    && first <= sb <= l.blockCount && |now| == |s|
    && (sb > first ==> MapBlock(l, ChunkOf(l, sb - 1)) < l.bitmapBlocks && ChunkSet(l, now, ChunkOf(l, sb - 1)))
    && forall d: nat :: MapBlock(l, d) < l.bitmapBlocks && (sb == first || d > ChunkOf(l, sb - 1)) ==>
      ChunkSet(l, now, d) == ChunkSet(l, s, d)
  }

  lemma ChunksInOrder(l: Layout, b: nat)
    requires l.chunkSize > 0 && b > 0
    ensures ChunkOf(l, b - 1) <= ChunkOf(l, b)
  {
    DivMod(b, l.chunkSize);
    DivMod(b - 1, l.chunkSize);
    if ChunkOf(l, b - 1) > ChunkOf(l, b) {
      MulMonotone(l.chunkSize, ChunkOf(l, b) + 1, ChunkOf(l, b - 1));
      MulSuccessor(l.chunkSize, ChunkOf(l, b));
    }
  }

  lemma BitsNext(l: Layout, s: Sight, now: Sight, next: Sight, first: nat, sb: nat)
    requires Proper(l, s) && Proper(l, now) && Proper(l, next) && |next| == |now| && sb < l.blockCount
    requires BitsAt(l, s, now, first, sb) && Marked(l, now, next, sb)
    ensures BitsAt(l, s, next, first, sb + 1)
  {
    hide ChunkSet, MapBlock, ChunkOf;
    ChunkInRange(l, |s|, sb);
    if sb > first { ChunksInOrder(l, sb); }
  }

  /** Whether a block that goes through the buffer is wiped is whether its chunk is set by then. */
  lemma WipedNow(l: Layout, s: Sight, now: Sight, span: Span, sb: nat)
    requires Proper(l, s) && Proper(l, now) && sb < l.blockCount && BitsAt(l, s, now, span.first, sb)
    requires sb == span.last || (sb == span.first && span.entered)
    ensures MapBlock(l, ChunkOf(l, sb)) < l.bitmapBlocks
    ensures Wiped(l, s, span, sb) <==> !ChunkSet(l, now, ChunkOf(l, sb))
  {
    hide ChunkSet, MapBlock, ChunkOf;
    ChunkInRange(l, |s|, sb);
    if sb > span.first { ChunksInOrder(l, sb); }
  }

  method PutBlock(dev: LazyZero, which: nat, data: Block, buf: array<byte>) returns (ok: bool, ghost lost: set<nat>)
    requires Usable(dev) && which < dev.layout.blockCount && |data| == dev.layout.bs
    requires buf.Length == dev.layout.bs && Apart(buf, dev)
    modifies dev.cache.base, dev.cache.data, dev.cache.indexes, dev.cache.dirty, dev.gbuf, buf
    ensures Usable(dev)
    ensures
      var p, steady := Piece(which, 0, data, true), dev.cache.base.Steady();
      PieceStep(dev.layout, old(SidesOf(dev)), p, ok, lost, SidesOf(dev), steady)
    ensures dev.cache.base.reliable ==> lost == {}
    ensures old(Working(dev)) ==> Working(dev) && ok
  {
    hide Bdev.Valid, BlockCache.Valid, BlockCache.Now, LazyZero.SeesTo, LazyZero.Sees, Shows, ChunkSet, ShownTo;
    hide WroteOne, BitmapKept, Lapsed, LazyZero.Settled, MapBlock, ChunkOf, Marked, Impaired, Bdev.Steady;
    ghost var s := dev.Sees();
    Fill(buf, data, dev);
    ok, lost := dev.WriteBlock(which, buf);
    BlockWritten(dev.layout, Receded(s, dev.Sees(), lost), dev.Sees(), which, data, ok);
    if old(Working(dev)) { KeptReadable(dev.layout, s, dev.Sees(), ChunkOf(dev.layout, which)); }
  }

  method PutPiece(dev: LazyZero, which: nat, skip: nat, bytes: seq<byte>, whole: bool, buf: array<byte>)
      returns (ok: bool, ghost lost: set<nat>)
    requires Usable(dev) && which < dev.layout.blockCount && skip + |bytes| <= dev.layout.bs
    requires whole ==> |bytes| == dev.layout.bs
    requires buf.Length == dev.layout.bs && Apart(buf, dev)
    modifies dev.cache.base, dev.cache.data, dev.cache.indexes, dev.cache.dirty, dev.gbuf, buf
    ensures Usable(dev)
    ensures
      var p, steady := Piece(which, skip, bytes, whole), dev.cache.base.Steady();
      PieceStep(dev.layout, old(SidesOf(dev)), p, ok, lost, SidesOf(dev), steady)
    ensures dev.cache.base.reliable ==> lost == {}
    ensures old(Working(dev)) ==> Working(dev) && ok == (whole || old(Shown(dev))[which].Some?)
    ensures old(Working(dev)) && !ok ==> Shown(dev) == old(Shown(dev))
  {
    hide Bdev.Valid, BlockCache.Valid, BlockCache.Now, LazyZero.SeesTo, LazyZero.Sees, ShownTo, PieceStep;
    if whole {
      ok, lost := PutBlock(dev, which, bytes, buf);
    } else {
      ok, lost := PutPart(dev, which, skip, bytes);
    }
  }

  lemma BlockWritten(l: Layout, t: Sight, s': Sight, which: nat, data: Block, ok: bool)
    requires Proper(l, t) && Proper(l, s') && |t| == |s'| && which < l.blockCount
    requires WroteOne(l, t, s', which, ok, data, false)
    ensures ok ==> Marked(l, t, s', which) && ShownIn(l, s') == ShownIn(l, t)[which := Some(data)]
    ensures !ok ==> ShownIn(l, s') in {ShownIn(l, t), ShownIn(l, t)[which := None]}
  {
    hide Shows, ChunkSet, ShownTo, MapBlock, ChunkOf;
    ChunkInRange(l, |t|, which);
    var c, c' := ShownIn(l, t), ShownIn(l, s');
    assert c' == c[which := c'[which]];
    assert c[which := c[which]] == c;
  }

  lemma ShownSized(l: Layout, s: Sight)
    requires Proper(l, s)
    ensures ByteAccess.Sizes(ShownIn(l, s), l.bs) && l.bs > 0
  {
    hide ShownTo, ChunkSet;
  }

  /** The part that arrives of what is put into one block. */
  lemma StoredArrives(l: Layout, s: Sight, which: nat, skip: nat, part: seq<byte>, wiped: bool)
    requires Proper(l, s) && which < l.blockCount && skip + |part| <= l.bs
    requires Shows(l, s, which).Some? && |Shows(l, s, which).value| == l.bs
    requires MapBlock(l, ChunkOf(l, which)) < l.bitmapBlocks && wiped == !ChunkSet(l, s, ChunkOf(l, which))
    ensures Stored(l, s, which, skip, part)
         == Some(Splice(Shows(l, s, which).value, skip, if wiped then Zeros(|part|) else part))
  {
    hide ChunkSet, MapBlock, ChunkOf;
    if wiped { ZeroPart(l.bs, skip, Zeros(|part|)); }
  }

  /** Between two rounds of the loop, as long as no bitmap block was lost. */
  ghost predicate Going(l: Layout, s: Sight, now: Sight, start: nat, from: seq<byte>, at: nat, sb: nat, skip: nat)
    requires Proper(l, s) && l.bs > 0 && from != []
  {
    && Proper(l, now) && |now| == |s|
    && ByteAccess.Writing(ShownIn(l, s), ShownIn(l, now), l.bs, start, Arriving(l, s, start, from), at, sb, skip)
    && BitsAt(l, s, now, SpanOf(l.bs, start, |from|).first, sb)
  }

  /** The pieces a write is cut into. */
  function Pieces(bs: nat, start: nat, from: seq<byte>): seq<Piece>
    requires bs > 0
    decreases |from|
  {
    if from == [] then []
    else
      var skip := start % bs;
      var n := if bs - skip > |from| then |from| else bs - skip;
      var whole := skip == 0 && start / bs != ByteAccess.LastBlock(start, |from|, bs);
      [Piece(start / bs, skip, from[..n], whole)] + Pieces(bs, start + n, from[n..])
  }

  /** The pieces are put one after the other; the last one tried may fail. */
  ghost predicate PieceSteps(l: Layout, trace: seq<Sides>, ps: seq<Piece>, losts: seq<set<nat>>, ok: bool,
                             steady: bool) {
    && |trace| == |losts| + 1 && |losts| <= |ps| && (!ok ==> |losts| > 0)
    && forall k :: 0 <= k < |losts| ==>
      PieceStep(l, trace[k], ps[k], ok || k < |losts| - 1, losts[k], trace[k + 1], steady)
  }

  lemma StepsOn(l: Layout, trace: seq<Sides>, ps: seq<Piece>, losts: seq<set<nat>>, ok: bool, lost: set<nat>, b: Sides,
                steady: bool)
    requires PieceSteps(l, trace, ps, losts, true, steady) && |losts| < |ps|
    requires PieceStep(l, trace[|losts|], ps[|losts|], ok, lost, b, steady)
    ensures PieceSteps(l, trace + [b], ps, losts + [lost], ok, steady)
  {
    hide PieceStep;
  }

  /** Where the loop stands: byte at of the write, byte skip of block sb. */
  ghost predicate Stands(bs: nat, start: nat, from: seq<byte>, at: nat, sb: nat, skip: nat) {
    && bs > 0 && from != [] && at <= |from|
    && (at < |from| ==> start + at == sb * bs + skip && skip < bs && sb <= ByteAccess.LastBlock(start, |from|, bs))
  }

  lemma StandsFirst(bs: nat, start: nat, from: seq<byte>)
    requires bs > 0 && from != []
    ensures Stands(bs, start, from, 0, start / bs, start % bs) && from[0..] == from
  {
    ByteAccess.Bounds(start, |from|, bs);
  }

  /** The next piece, and where the loop stands after it. */
  lemma StandsNext(bs: nat, start: nat, from: seq<byte>, at: nat, sb: nat, skip: nat)
    requires Stands(bs, start, from, at, sb, skip) && at < |from|
    ensures var eb := ByteAccess.LastBlock(start, |from|, bs);
      var n := if bs - skip > |from| - at then |from| - at else bs - skip;
      && Pieces(bs, start + at, from[at..]) ==
           [Piece(sb, skip, from[at..at + n], skip == 0 && sb != eb)] + Pieces(bs, start + (at + n), from[at + n..])
      && Stands(bs, start, from, at + n, sb + 1, 0)
      && (skip == 0 && sb != eb ==> n == bs)
  {
    var eb := ByteAccess.LastBlock(start, |from|, bs);
    var rest := from[at..];
    DivModUnique(start + at, bs, sb, skip);
    assert start + at + |rest| == start + |from|;
    assert ByteAccess.LastBlock(start + at, |rest|, bs) == eb;
    ByteAccess.Bounds(start, |from|, bs);
    if sb < eb { ByteAccess.NextBlockAt(sb, eb, bs); }
    var n := if bs - skip > |from| - at then |from| - at else bs - skip;
    assert rest[..n] == from[at..at + n] && rest[n..] == from[at + n..];
    MulSuccessor(bs, sb);
  }

  /** Writes from at start, piece by piece. As long as no bitmap block is lost, what arrives is what is
      shown afterwards at its place, and nothing else changes; after a failure a prefix of it, the block
      whose write failed being lost or as it was. When nothing can fail, it fails exactly when a block
      that has to be read first cannot be. */
  method WriteBytes(dev: LazyZero, start: nat, from: seq<byte>)
      returns (ok: bool, ghost done: nat, ghost gone: Option<nat>, ghost losts: seq<set<nat>>, ghost trace: seq<Sides>)
    requires Usable(dev)
    requires |from| > 0 ==> ByteAccess.LastBlock(start, |from|, dev.layout.bs) < dev.layout.blockCount
    modifies dev.cache.base, dev.cache.data, dev.cache.indexes, dev.cache.dirty, dev.gbuf
    ensures Usable(dev) && dev.layout.bs > 0 && ByteAccess.Sizes(old(Shown(dev)), dev.layout.bs)
    ensures var ps := Pieces(dev.layout.bs, start, from);
      PieceSteps(dev.layout, trace, ps, losts, ok, dev.cache.base.Steady()) && (ok ==> |losts| == |ps|)
    ensures trace[0] == old(SidesOf(dev)) && trace[|losts|] == SidesOf(dev)
    ensures NothingLost(losts) ==>
      ByteAccess.WriteOutcome(old(Shown(dev)), Shown(dev), dev.layout.bs, start,
                              Arriving(dev.layout, old(dev.Sees()), start, from), done, gone, ok)
    ensures dev.cache.base.reliable ==> NothingLost(losts)
    ensures old(Working(dev)) ==>
      gone == None && ok == ByteAccess.CanRewrite(old(Shown(dev)), dev.layout.bs, start, |from|)
  {
    hide Bdev.Valid, BlockCache.Valid, BlockCache.Now, LazyZero.SeesTo, LazyZero.Sees, Shows, ChunkSet, ShownTo;
    hide Zeros, Arriving, Marked, Stored, Splice, Going, PieceStep, PieceSteps, Pieces, Proper, LazyZero.Bitmapped;
    hide ByteAccess.WriteOutcome, ByteAccess.CanRewrite, ByteAccess.Sizes, LazyZero.Wired, LazyZero.Held, Stands;
    hide NothingLost, ByteAccess.LastBlock, ShownIn, Stopped, Bdev.Steady;
    ShownSized(dev.layout, dev.Sees());
    var len: nat, bs := |from|, dev.layout.bs;
    ghost var l, s, here, ps := dev.layout, dev.Sees(), SidesOf(dev), Pieces(dev.layout.bs, start, from);
    ghost var steady := dev.cache.base.Steady();
    ok, done, gone, losts, trace := true, 0, None, [], [here];
    NoSteps(l, here, ps, steady);
    if len == 0 {
      NoBytes(l, s, start, from);
      return;
    }
    var buf := new byte[bs](_ => 0);
    var startBlock: nat, endBlock: nat, at: nat := start / bs, ByteAccess.LastBlock(start, len, bs), 0;
    var skipBytes: nat := start % bs;
    StandsFirst(bs, start, from);
    GoingStarts(l, s, start, from);
    assert ps[0..] == ps;
    while len > 0
      invariant Usable(dev) && Apart(buf, dev) && at + len == |from| && (old(Working(dev)) ==> Working(dev))
      invariant Stands(bs, start, from, at, startBlock, skipBytes)
      invariant PieceSteps(l, trace, ps, losts, true, steady)
      invariant |trace| == |losts| + 1 && |losts| <= |ps|
      invariant trace[0] == here && trace[|losts|] == SidesOf(dev)
      invariant ps[|losts|..] == Pieces(bs, start + at, from[at..])
      invariant dev.cache.base.reliable ==> NothingLost(losts)
      invariant NothingLost(losts) ==> Going(l, s, dev.Sees(), start, from, at, startBlock, skipBytes)
      decreases len
    {
      ghost var a := SidesOf(dev);
      StandsNow(bs, start, from, at, startBlock, skipBytes, dev.layout.blockCount);
      StandsNext(bs, start, from, at, startBlock, skipBytes);
      var copy := if bs - skipBytes > len then len else bs - skipBytes;
      var whole := !(skipBytes != 0 || startBlock == endBlock);
      ghost var p := Piece(startBlock, skipBytes, from[at..at + copy], whole);
      HeadIs(ps, |losts|, p, Pieces(bs, start + (at + copy), from[at + copy..]));
      ghost var lost;
      ok, lost := PutPiece(dev, startBlock, skipBytes, from[at..at + copy], whole, buf);
      ghost var b := SidesOf(dev);
      StepsOn(l, trace, ps, losts, ok, lost, b, steady);
      LostOn(losts, lost);
      if !ok {
        done, gone := at, if ShownIn(l, b.sees) == ShownIn(l, a.sees) then None else Some(startBlock);
        if NothingLost(losts) && lost == {} { GoingStops(l, s, a, b, start, from, at, p, gone, steady); }
        losts, trace := losts + [lost], trace + [b];
        return;
      }
      if NothingLost(losts) && lost == {} { GoingNext(l, s, a, b, start, from, at, p, steady); }
      losts, trace := losts + [lost], trace + [b];
      len, at, skipBytes, startBlock := len - copy, at + copy, 0, startBlock + 1;
    }
    done := |from|;
    PiecesEnd(ps, |losts|, bs, start + at, from[at..]);
    if NothingLost(losts) { GoingEnds(l, s, dev.Sees(), start, from, startBlock, skipBytes); }
  }

  lemma NoSteps(l: Layout, a: Sides, ps: seq<Piece>, steady: bool)
    ensures PieceSteps(l, [a], ps, [], true, steady) && NothingLost([])
  {}

  lemma LostOn(losts: seq<set<nat>>, lost: set<nat>)
    ensures NothingLost(losts + [lost]) <==> NothingLost(losts) && lost == {}
  {
    if NothingLost(losts + [lost]) {
      assert (losts + [lost])[|losts|] == lost;
      forall k | 0 <= k < |losts|
        ensures losts[k] == {}
      {
        assert (losts + [lost])[k] == losts[k];
      }
    }
  }

  lemma HeadIs(ps: seq<Piece>, k: nat, p: Piece, rest: seq<Piece>)
    requires k <= |ps| && ps[k..] == [p] + rest
    ensures k < |ps| && ps[k] == p && ps[k + 1..] == rest
  {
    assert ps[k..][0] == p && ps[k..][1..] == ps[k + 1..];
  }

  lemma PiecesEnd(ps: seq<Piece>, k: nat, bs: nat, start: nat, from: seq<byte>)
    requires bs > 0 && k <= |ps| && from == [] && ps[k..] == Pieces(bs, start, from)
    ensures k == |ps|
  {}

  lemma StandsNow(bs: nat, start: nat, from: seq<byte>, at: nat, sb: nat, skip: nat, blockCount: nat)
    requires Stands(bs, start, from, at, sb, skip) && at < |from| && bs > 0
    requires ByteAccess.LastBlock(start, |from|, bs) < blockCount
    ensures skip < bs && sb < blockCount
  {}

  lemma GoingStarts(l: Layout, s: Sight, start: nat, from: seq<byte>)
    requires Proper(l, s) && l.bs > 0 && from != [] && ByteAccess.LastBlock(start, |from|, l.bs) < l.blockCount
    ensures Going(l, s, s, start, from, 0, start / l.bs, start % l.bs)
  {
    hide Shows, ByteAccess.Sizes, Arriving, Proper, ByteAccess.Writing, ShownTo;
    ShownSized(l, s);
    ByteAccess.Bounds(start, |from|, l.bs);
    ByteAccess.WritingStarts(ShownIn(l, s), l.bs, start, Arriving(l, s, start, from));
  }

  /** The byte and the block the loop has come to. */
  lemma GoingRoom(l: Layout, s: Sight, now: Sight, start: nat, from: seq<byte>, at: nat, sb: nat, skip: nat)
    requires Proper(l, s) && l.bs > 0 && from != [] && at < |from| && Going(l, s, now, start, from, at, sb, skip)
    ensures sb < l.blockCount && skip < l.bs && sb <= ByteAccess.LastBlock(start, |from|, l.bs)
    ensures start + at == sb * l.bs + skip && (skip != 0 ==> sb == start / l.bs && start % l.bs != 0)
    ensures ShownIn(l, now)[sb].Some? ==> |ShownIn(l, now)[sb].value| == l.bs
  {
    hide Shows, Arriving, Proper, BitsAt, ByteAccess.WroteSoFar, ByteAccess.Untouched, ShownTo;
    ShownSized(l, now);
    ByteAccess.WritingRoom(ShownIn(l, s), ShownIn(l, now), l.bs, start, Arriving(l, s, start, from), at, sb, skip);
    ByteAccess.LengthKept(ShownIn(l, s), ShownIn(l, now), l.bs, start, Arriving(l, s, start, from), at);
  }

  lemma GoingStops(l: Layout, s: Sight, a: Sides, b: Sides, start: nat, from: seq<byte>, at: nat, p: Piece,
                   gone: Option<nat>, steady: bool)
    requires Proper(l, s) && l.bs > 0 && from != [] && at < |from|
    requires Going(l, s, a.sees, start, from, at, p.which, p.skip) && PieceStep(l, a, p, false, {}, b, steady)
    requires gone == if ShownIn(l, b.sees) == ShownIn(l, a.sees) then None else Some(p.which)
    requires p.whole == (p.skip == 0 && p.which != ByteAccess.LastBlock(start, |from|, l.bs))
    ensures ByteAccess.WriteOutcome(ShownIn(l, s), ShownIn(l, b.sees), l.bs, start, Arriving(l, s, start, from), at,
                                    gone, false)
    ensures !p.whole && ShownIn(l, a.sees)[p.which].None? ==>
      !ByteAccess.CanRewrite(ShownIn(l, s), l.bs, start, |from|)
  {
    hide Shows, Arriving, BitsAt, ByteAccess.Writing, ByteAccess.WriteOutcome, ByteAccess.CanRewrite, ShownTo;
    hide ByteAccess.Sizes, Proper, Lapsed, BitmapKept, Marked, Stored;
    assert Receded(a.sees, b.sees, {}) == a.sees;
    GoingRoom(l, s, a.sees, start, from, at, p.which, p.skip);
    ByteAccess.WritingStops(ShownIn(l, s), ShownIn(l, a.sees), ShownIn(l, b.sees), l.bs, start,
                            Arriving(l, s, start, from), at, p.which, p.skip, gone);
  }

  lemma GoingNext(l: Layout, s: Sight, a: Sides, b: Sides, start: nat, from: seq<byte>, at: nat, p: Piece,
                  steady: bool)
    requires Proper(l, s) && l.bs > 0 && from != [] && at < |from|
    requires Going(l, s, a.sees, start, from, at, p.which, p.skip) && PieceStep(l, a, p, true, {}, b, steady)
    requires p.skip <= l.bs
    requires var n := if l.bs - p.skip > |from| - at then |from| - at else l.bs - p.skip;
      p.bytes == from[at..at + n]
    requires p.whole == (p.skip == 0 && p.which != ByteAccess.LastBlock(start, |from|, l.bs))
    ensures Going(l, s, b.sees, start, from, at + |p.bytes|, p.which + 1, 0)
  {
    hide Shows, Arriving, BitsAt, ByteAccess.Writing, ShownTo, Proper, Lapsed, BitmapKept, Marked, Stored;
    hide Splice, Wiped, ByteAccess.Sizes;
    assert Receded(a.sees, b.sees, {}) == a.sees;
    var n, first, r := |p.bytes|, SpanOf(l.bs, start, |from|).first, Arriving(l, s, start, from);
    GoingRoom(l, s, a.sees, start, from, at, p.which, p.skip);
    BitsNext(l, s, a.sees, b.sees, first, p.which);
    if p.whole {
      NotThrough(l, s, start, from, p.which, at);
      PieceArrives(l, s, start, from, at, n, p.which, 0);
      ByteAccess.WritingBlock(ShownIn(l, s), ShownIn(l, a.sees), l.bs, start, r, at, p.which);
    } else {
      PartArrives(l, s, a.sees, ShownIn(l, a.sees)[p.which], start, from, at, n, p.which, p.skip);
      ByteAccess.WritingPart(ShownIn(l, s), ShownIn(l, a.sees), l.bs, start, r, at, p.which, p.skip, n);
    }
  }

  lemma NotThrough(l: Layout, s: Sight, start: nat, from: seq<byte>, sb: nat, at: nat)
    requires Proper(l, s) && l.bs > 0 && from != [] && sb < ByteAccess.LastBlock(start, |from|, l.bs)
    requires start + at == sb * l.bs && sb < l.blockCount
    ensures !Wiped(l, s, SpanOf(l.bs, start, |from|), sb)
  {
    hide ChunkSet, ChunkOf, MapBlock;
    DivMod(start, l.bs);
  }

  lemma GoingEnds(l: Layout, s: Sight, now: Sight, start: nat, from: seq<byte>, sb: nat, skip: nat)
    requires Proper(l, s) && l.bs > 0 && from != [] && Going(l, s, now, start, from, |from|, sb, skip)
    ensures ByteAccess.WriteOutcome(ShownIn(l, s), ShownIn(l, now), l.bs, start, Arriving(l, s, start, from), |from|,
                                    None, true)
    ensures ByteAccess.CanRewrite(ShownIn(l, s), l.bs, start, |from|)
  {
    hide Shows, Arriving, Proper, BitsAt, ByteAccess.Writing, ShownTo;
    ByteAccess.WritingEnds(ShownIn(l, s), ShownIn(l, now), l.bs, start, Arriving(l, s, start, from), sb, skip);
  }

  lemma NoBytes(l: Layout, s: Sight, start: nat, from: seq<byte>)
    requires Proper(l, s) && l.bs > 0 && from == []
    ensures Pieces(l.bs, start, from) == []
    ensures
      var before, sent := ShownIn(l, s), Arriving(l, s, start, from);
      ByteAccess.WriteOutcome(before, before, l.bs, start, sent, 0, None, true)
    ensures ByteAccess.CanRewrite(ShownIn(l, s), l.bs, start, 0)
  {
    ShownSized(l, s);
  }

  /** What PutPart leaves is what the part that arrives makes of the block. */
  lemma PartArrives(l: Layout, s: Sight, now: Sight, v: Option<Block>, start: nat, from: seq<byte>, at: nat, n: nat,
                    sb: nat, skip: nat)
    requires Proper(l, s) && Proper(l, now) && from != [] && sb < l.blockCount && v == Shows(l, now, sb)
    requires at + n <= |from| && start + at == sb * l.bs + skip && skip + n <= l.bs && 0 < n
    requires var span := SpanOf(l.bs, start, |from|);
      (sb == span.last || (sb == span.first && span.entered)) && BitsAt(l, s, now, span.first, sb)
    requires v.Some? ==> |v.value| == l.bs
    ensures v.Some? ==>
      Stored(l, now, sb, skip, from[at..at + n]) == Some(Splice(v.value, skip, Arriving(l, s, start, from)[at..at + n]))
  {
    hide Arriving, Wiped, BitsAt, Stored, Splice, Shows, Proper, ChunkSet, MapBlock, ChunkOf, SpanOf;
    var span := SpanOf(l.bs, start, |from|);
    WipedNow(l, s, now, span, sb);
    PieceArrives(l, s, start, from, at, n, sb, skip);
    if v.Some? { StoredArrives(l, now, sb, skip, from[at..at + n], Wiped(l, s, span, sb)); }
  }
}
