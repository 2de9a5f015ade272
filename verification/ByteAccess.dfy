/** The byte interface every block device offers on top of its block interface. */
module ByteAccess {
  import opened Arithmetic
  import opened Bits
  import opened Devices
  import opened Parity
  import opened PlainArray
  import opened VerifyDevice

  // ---- the device as one flat array of bytes

  type Flat = seq<Option<byte>>

  function Wrap(s: seq<byte>): (f: Flat)
    ensures |f| == |s| && forall j :: 0 <= j < |s| ==> f[j] == Some(s[j])
  {
    seq(|s|, j requires 0 <= j < |s| => Some(s[j]))
  }

  function Cell(v: Option<Block>, bs: nat): (f: Flat)
    requires v.Some? ==> |v.value| == bs
    ensures |f| == bs
  {
    if v.Some? then Wrap(v.value) else seq(bs, _ => None)
  }

  ghost predicate Sizes(c: Contents, bs: nat) {
    forall b :: 0 <= b < |c| && c[b].Some? ==> |c[b].value| == bs
  }

  /** Block after block; the bytes of an unreadable block are unreadable. */
  ghost function Flatten(c: Contents, bs: nat): (f: Flat)
    requires Sizes(c, bs)
    ensures |f| == |c| * bs
  {
    if c == [] then []
    else
      var n := |c| - 1;
      MulSuccessor(bs, n);
      Flatten(c[..n], bs) + Cell(c[n], bs)
  }

  lemma BlockFits(n: nat, bs: nat, b: nat)
    requires b < n
    ensures b * bs + bs <= n * bs
  {
    MulSuccessor(bs, b);
    MulMonotone(bs, b + 1, n);
  }

  lemma SliceOfSum(f: Flat, g: Flat, a: nat, b: nat)
    requires a <= b <= |f|
    ensures (f + g)[a..b] == f[a..b]
    ensures (f + g)[|f|..|f| + |g|] == g
  {}

  lemma SpliceSum(f: Flat, g: Flat, off: nat, d: Flat)
    requires off + |d| <= |f|
    ensures Splice(f + g, off, d) == Splice(f, off, d) + g
  {}

  lemma SpliceLast(f: Flat, g: Flat, d: Flat)
    requires |d| == |g|
    ensures Splice(f + g, |f|, d) == f + d
  {}

  lemma {:induction false} FlatBlock(c: Contents, bs: nat, b: nat)
    requires Sizes(c, bs) && b < |c|
    ensures b * bs + bs <= |c| * bs
    ensures Flatten(c, bs)[b * bs..b * bs + bs] == Cell(c[b], bs)
    decreases |c|
  {
    hide Cell;
    var n := |c| - 1;
    var f, g := Flatten(c[..n], bs), Cell(c[n], bs);
    BlockFits(|c|, bs, b);
    if b < n {
      BlockFits(n, bs, b);
      FlatBlock(c[..n], bs, b);
      SliceOfSum(f, g, b * bs, b * bs + bs);
    } else {
      SliceOfSum(f, g, 0, 0);
    }
  }

  lemma {:induction false} FlatUpdate(c: Contents, bs: nat, b: nat, v: Option<Block>)
    requires Sizes(c, bs) && b < |c| && (v.Some? ==> |v.value| == bs)
    ensures b * bs + bs <= |c| * bs
    ensures Flatten(c[b := v], bs) == Splice(Flatten(c, bs), b * bs, Cell(v, bs))
    decreases |c|
  {
    hide Cell, Splice;
    var n := |c| - 1;
    var f, g := Flatten(c[..n], bs), Cell(c[n], bs);
    BlockFits(|c|, bs, b);
    if b < n {
      BlockFits(n, bs, b);
      assert c[b := v][..n] == c[..n][b := v];
      FlatUpdate(c[..n], bs, b, v);
      SpliceSum(f, g, b * bs, Cell(v, bs));
    } else {
      assert c[b := v][..n] == c[..n];
      SpliceLast(f, g, Cell(v, bs));
    }
  }

  lemma SpliceTwice(f: Flat, off: nat, d: Flat, e: Flat)
    requires off + |d| + |e| <= |f|
    ensures Splice(Splice(f, off, d), off + |d|, e) == Splice(f, off, d + e)
  {}

  /** Writing part of a block and putting the whole block back is writing the part. */
  lemma SplicePart(f: Flat, base: nat, bs: nat, skip: nat, d: Flat)
    requires base + bs <= |f| && skip + |d| <= bs
    ensures Splice(f, base, Splice(f[base..base + bs], skip, d)) == Splice(f, base + skip, d)
  {}

  lemma WrapSplice(s: Block, off: nat, d: seq<byte>)
    requires off + |d| <= |s|
    ensures Wrap(Splice(s, off, d)) == Splice(Wrap(s), off, Wrap(d))
  {}

  lemma Bounds(start: nat, len: nat, bs: nat)
    requires bs > 0 && len > 0
    ensures start / bs <= (start + len - 1) / bs
    ensures start == start / bs * bs + start % bs && start % bs < bs
    ensures (start + len - 1) / bs * bs < start + len <= (start + len - 1) / bs * bs + bs
  {
    DivMod(start, bs);
    DivMod(start + len - 1, bs);
    var q, q' := start / bs, (start + len - 1) / bs;
    MulSuccessor(bs, q');
    if q' < q { MulMonotone(bs, q' + 1, q); }
  }

  // ---- the device operations

  ghost predicate Ready(dev: Bdev)
    reads dev
  {
    dev.Valid() && dev.Separate()
  }

  lemma ContentsSized(dev: Bdev)
    requires dev.Valid()
    ensures Sizes(ContentsOf(dev), dev.blockSize) && dev.blockSize > 0
  {
    hide Bdev.View;
  }

  /** Bytes skip .. skip + n of block sb, by way of the block buffer. */
  method FetchPart(dev: Bdev, gbuf: array<byte>, sb: nat, skip: nat, n: nat, into: array<byte>, at: nat)
      returns (ok: bool)
    requires Ready(dev) && sb < dev.blockCount && skip + n <= dev.blockSize && dev.blockSize > 0
    requires gbuf.Length == dev.blockSize && into != gbuf && at + n <= into.Length
    modifies dev`hashBlock, dev`whichHashBlock, gbuf, into
    ensures Ready(dev) && ContentsOf(dev) == old(ContentsOf(dev))
    ensures ok == ContentsOf(dev)[sb].Some?
    ensures into[..at] == old(into[..at])
    ensures ok ==> into[at..at + n] == ContentsOf(dev)[sb].value[skip..skip + n]
  {
    hide Bdev.View, Bdev.Valid, ContentsTo;
    ok := dev.ReadBlock(sb, gbuf, 0);
    ghost var c := ContentsOf(dev);
    assert c == old(ContentsOf(dev));
    if !ok { return; }
    assert gbuf[..] == gbuf[0..dev.blockSize];
    ghost var block := gbuf[..];
    for j := 0 to n
      invariant gbuf[..] == block && into[..at] == old(into[..at])
      invariant into[at..at + j] == block[skip..skip + j]
      invariant Ready(dev) && ContentsOf(dev) == c
    {
      into[at + j] := gbuf[skip + j];
    }
  }

  lemma SubSlice(f: Flat, a: nat, n: nat, lo: nat, hi: nat)
    requires lo <= hi <= n && a + n <= |f|
    ensures f[a..a + n][lo..hi] == f[a + lo..a + hi]
  {
    var left, right := f[a..a + n][lo..hi], f[a + lo..a + hi];
    forall i | 0 <= i < |left|
      ensures left[i] == right[i]
    {
      assert f[a..a + n][lo + i] == f[a + (lo + i)];
    }
  }

  lemma WrapSlice(s: seq<byte>, lo: nat, hi: nat)
    requires lo <= hi <= |s|
    ensures Wrap(s[lo..hi]) == Wrap(s)[lo..hi]
  {}

  /** What a successful fetch means for the flat view. */
  lemma PartOfFlat(c: Contents, bs: nat, sb: nat, skip: nat, n: nat)
    requires Sizes(c, bs) && sb < |c| && c[sb].Some? && skip + n <= bs
    ensures sb * bs + bs <= |c| * bs
    ensures Wrap(c[sb].value[skip..skip + n]) == Flatten(c, bs)[sb * bs + skip..sb * bs + skip + n]
  {
    hide Flatten, Wrap;
    FlatBlock(c, bs, sb);
    PartOf(Flatten(c, bs), c[sb].value, sb * bs, bs, skip, n);
  }

  lemma PartOf(f: Flat, v: Block, base: nat, bs: nat, skip: nat, n: nat)
    requires base + bs <= |f| && |v| == bs && f[base..base + bs] == Wrap(v) && skip + n <= bs
    ensures Wrap(v[skip..skip + n]) == f[base + skip..base + skip + n]
  {
    hide Wrap;
    SubSlice(f, base, bs, skip, skip + n);
    WrapSlice(v, skip, skip + n);
  }

  function LastBlock(start: nat, len: nat, bs: nat): nat
    requires bs > 0 && len > 0
  {
    (start + len - 1) / bs
  }

  /** Success exactly when every touched block can be read, and then the right bytes. */
  ghost predicate ReadOutcome(c: Contents, bs: nat, start: nat, into: seq<byte>, ok: bool)
    requires bs > 0 && Sizes(c, bs)
  {
    if into == [] then ok
    else
      && ok == Readable(c, start / bs, LastBlock(start, |into|, bs) + 1)
      && (ok ==> start + |into| <= |c| * bs && Wrap(into) == Flatten(c, bs)[start..start + |into|])
  }

  ghost predicate Readable(c: Contents, lo: nat, hi: nat) {
    forall b :: lo <= b < hi && b < |c| ==> c[b].Some?
  }

  lemma WrapConcat(s: seq<byte>, t: seq<byte>, f: Flat, a: nat)
    requires a + |s| + |t| <= |f|
    requires Wrap(s) == f[a..a + |s|] && Wrap(t) == f[a + |s|..a + |s| + |t|]
    ensures Wrap(s + t) == f[a..a + |s| + |t|]
  {
    assert Wrap(s + t) == Wrap(s) + Wrap(t);
  }

  ghost predicate ReadSoFar(c: Contents, bs: nat, start: nat, into: seq<byte>, at: nat)
    requires Sizes(c, bs)
  {
    at <= |into| && start + at <= |c| * bs && Wrap(into[..at]) == Flatten(c, bs)[start..start + at]
  }

  lemma NothingRead(c: Contents, bs: nat, start: nat, into: seq<byte>)
    requires Sizes(c, bs) && start <= |c| * bs
    ensures ReadSoFar(c, bs, start, into, 0)
  {}

  /** One more piece read: the bytes read so far are still the bytes of the device. */
  lemma PieceRead(c: Contents, bs: nat, start: nat, was: seq<byte>, into: seq<byte>, at: nat, sb: nat, skip: nat,
                  n: nat)
    requires Sizes(c, bs) && sb < |c| && c[sb].Some? && skip + n <= bs
    requires start + at == sb * bs + skip && at + n <= |into| == |was|
    requires into[..at] == was[..at] && into[at..at + n] == c[sb].value[skip..skip + n]
    requires ReadSoFar(c, bs, start, was, at)
    ensures ReadSoFar(c, bs, start, into, at + n)
  {
    hide Flatten, Wrap;
    PartOfFlat(c, bs, sb, skip, n);
    WrapConcat(into[..at], into[at..at + n], Flatten(c, bs), start);
    assert into[..at + n] == into[..at] + into[at..at + n];
  }

  lemma ReadableNext(c: Contents, lo: nat, sb: nat, eb: nat)
    requires lo <= sb <= eb && sb < |c| && Readable(c, lo, sb)
    ensures if c[sb].Some? then Readable(c, lo, sb + 1) else !Readable(c, lo, eb + 1)
  {}

  lemma AllRead(c: Contents, bs: nat, start: nat, into: seq<byte>, ok: bool)
    requires bs > 0 && Sizes(c, bs) && |into| > 0
    requires ok == Readable(c, start / bs, LastBlock(start, |into|, bs) + 1)
    requires ok ==> ReadSoFar(c, bs, start, into, |into|)
    ensures ReadOutcome(c, bs, start, into, ok)
  {
    assert into[..|into|] == into;
  }

  /** A whole block straight into its place. */
  method FetchBlock(dev: Bdev, sb: nat, into: array<byte>, at: nat) returns (ok: bool)
    requires Ready(dev) && sb < dev.blockCount && at + dev.blockSize <= into.Length
    modifies dev`hashBlock, dev`whichHashBlock, into
    ensures Ready(dev) && ContentsOf(dev) == old(ContentsOf(dev))
    ensures ok == ContentsOf(dev)[sb].Some?
    ensures into[..at] == old(into[..at])
    ensures ok ==> into[at..at + dev.blockSize] == ContentsOf(dev)[sb].value[0..dev.blockSize]
  {
    hide Bdev.View, Bdev.Valid, ContentsTo;
    ok := dev.ReadBlock(sb, into, at);
    assert ContentsOf(dev) == old(ContentsOf(dev));
    WholeBlock(ContentsOf(dev)[sb], dev.blockSize);
  }

  /** Fills into with the bytes from start on; fails exactly when a touched block cannot be read. */
  method ReadBytes(dev: Bdev, gbuf: array<byte>, start: nat, into: array<byte>) returns (ok: bool)
    requires Ready(dev) && gbuf.Length == dev.blockSize && into != gbuf
    requires dev.blockSize > 0 && (into.Length > 0 ==> LastBlock(start, into.Length, dev.blockSize) < dev.blockCount)
    modifies dev`hashBlock, dev`whichHashBlock, gbuf, into
    ensures Ready(dev) && ContentsOf(dev) == old(ContentsOf(dev))
    ensures Sizes(ContentsOf(dev), dev.blockSize) && ReadOutcome(ContentsOf(dev), dev.blockSize, start, into[..], ok)
  {
    hide Bdev.View, Bdev.Valid, Bdev.Separate, ContentsOf, Flatten, Wrap, Sizes, ReadSoFar, Readable;
    var len, bs := into.Length, dev.blockSize;
    ContentsReady(dev);
    if len == 0 { return true; }
    hide ReadOutcome;
    Bounds(start, len, bs);
    ghost var c := ContentsOf(dev);
    var startBlock, endBlock, at := start / bs, LastBlock(start, len, bs), 0;
    var skipBytes := start - startBlock * bs;
    ghost var first := startBlock;
    BlockFits(|c|, bs, endBlock);
    NothingRead(c, bs, start, into[..]);
    ReadableEmpty(c, first);
    while len > 0
      invariant Ready(dev) && ContentsOf(dev) == c
      invariant 0 <= at && at + len == into.Length && 0 <= skipBytes < bs && len > 0
      invariant first <= startBlock <= endBlock
      invariant start + at == startBlock * bs + skipBytes
      invariant ReadSoFar(c, bs, start, into[..], at)
      invariant Readable(c, first, startBlock)
      decreases len
    {
      ReadableNext(c, first, startBlock, endBlock);
      ghost var was := into[..];
      if startBlock == endBlock {
        ok := FetchPart(dev, gbuf, startBlock, skipBytes, len, into, at);
        if ok { PieceRead(c, bs, start, was, into[..], at, startBlock, skipBytes, len); }
        AllRead(c, bs, start, into[..], ok);
        return;
      }
      NextBlockAt(startBlock, endBlock, bs);
      var size := bs - skipBytes;
      if skipBytes != 0 {
        ok := FetchPart(dev, gbuf, startBlock, skipBytes, size, into, at);
      } else {
        ok := FetchBlock(dev, startBlock, into, at);
      }
      if !ok {
        AllRead(c, bs, start, into[..], false);
        return;
      }
      PieceRead(c, bs, start, was, into[..], at, startBlock, skipBytes, size);
      len, at, startBlock, skipBytes := len - size, at + size, startBlock + 1, 0;
    }
  }

  lemma ContentsReady(dev: Bdev)
    requires Ready(dev)
    ensures Sizes(ContentsOf(dev), dev.blockSize) && |ContentsOf(dev)| == dev.blockCount
  {
    ContentsSized(dev);
  }

  lemma WholeBlock(v: Option<Block>, bs: nat)
    requires v.Some? ==> |v.value| == bs
    ensures v.Some? ==> v.value[0..bs] == v.value
  {}

  lemma ReadableEmpty(c: Contents, lo: nat)
    ensures Readable(c, lo, lo)
  {}

  lemma NextBlockAt(sb: nat, eb: nat, bs: nat)
    requires sb < eb
    ensures (sb + 1) * bs == sb * bs + bs && sb * bs + bs <= eb * bs
  {
    MulSuccessor(bs, sb);
    MulMonotone(bs, sb + 1, eb);
  }

  // ---- writing

  /** Read a block, replace the bytes from skip on, write it back. */
  method PutPart(dev: Bdev, gbuf: array<byte>, sb: nat, skip: nat, part: seq<byte>) returns (ok: bool)
    requires Ready(dev) && sb < dev.blockCount && skip + |part| <= dev.blockSize && gbuf.Length == dev.blockSize
    modifies dev, gbuf
    ensures Ready(dev) && Sizes(old(ContentsOf(dev)), dev.blockSize)
    ensures PutOutcome(old(ContentsOf(dev)), ContentsOf(dev), dev.blockSize, sb, skip, part, ok)
    ensures dev.reliable ==> ok == old(ContentsOf(dev))[sb].Some?
  {
    hide Bdev.View, Bdev.Valid, Bdev.Stale, Bdev.Revives, Bdev.Coherent, Bdev.St, Outcome, Has, ContentsTo;
    ContentsSized(dev);
    ghost var c := ContentsOf(dev);
    ok := dev.ReadBlock(sb, gbuf, 0);
    assert ContentsOf(dev) == c;
    if !ok { return; }
    ghost var block := gbuf[..];
    assert gbuf[0..dev.blockSize] == block;
    Patch(gbuf, skip, part);
    assert ContentsOf(dev) == c;
    ok := dev.WriteBlock(sb, gbuf[..]);
    WroteOrNot(c, ContentsOf(dev), sb, if ok then Some(Splice(block, skip, part)) else ContentsOf(dev)[sb]);
  }

  method Patch(gbuf: array<byte>, skip: nat, part: seq<byte>)
    requires skip + |part| <= gbuf.Length
    modifies gbuf
    ensures gbuf[..] == Splice(old(gbuf[..]), skip, part)
  {
    ghost var block := gbuf[..];
    for j := 0 to |part|
      invariant gbuf[..] == block[..skip] + part[..j] + block[skip + j..]
    {
      gbuf[skip + j] := part[j];
    }
  }

  ghost predicate PutOutcome(c: Contents, c': Contents, bs: nat, sb: nat, skip: nat, part: seq<byte>, ok: bool)
    requires Sizes(c, bs) && sb < |c| && skip + |part| <= bs
  {
    if ok then c[sb].Some? && c' == c[sb := Some(Splice(c[sb].value, skip, part))]
    else c' == c || (c' == c[sb := None] && c[sb].Some?)
  }

  /** The bytes of part land at their place in the flat view and nowhere else. */
  lemma PieceWritten(c: Contents, bs: nat, sb: nat, skip: nat, part: seq<byte>)
    requires Sizes(c, bs) && sb < |c| && c[sb].Some? && skip + |part| <= bs
    ensures sb * bs + bs <= |c| * bs
    ensures Sizes(c[sb := Some(Splice(c[sb].value, skip, part))], bs)
    ensures Flatten(c[sb := Some(Splice(c[sb].value, skip, part))], bs)
         == Splice(Flatten(c, bs), sb * bs + skip, Wrap(part))
  {
    hide Flatten, Wrap, Splice;
    var b' := Splice(c[sb].value, skip, part);
    FlatUpdate(c, bs, sb, Some(b'));
    FlatBlock(c, bs, sb);
    WrapSplice(c[sb].value, skip, part);
    SplicePart(Flatten(c, bs), sb * bs, bs, skip, Wrap(part));
  }

  method PutBlock(dev: Bdev, sb: nat, part: seq<byte>) returns (ok: bool)
    requires Ready(dev) && sb < dev.blockCount && |part| == dev.blockSize
    modifies dev
    ensures Ready(dev)
    ensures ok ==> ContentsOf(dev) == old(ContentsOf(dev))[sb := Some(part)]
    ensures !ok ==> ContentsOf(dev) in {old(ContentsOf(dev)), old(ContentsOf(dev))[sb := None]}
    ensures dev.reliable ==> ok
  {
    hide Bdev.View, Bdev.Valid, Bdev.Stale, Bdev.Revives, Bdev.Coherent, Bdev.St, Outcome, Has, ContentsTo;
    ghost var c := ContentsOf(dev);
    ok := dev.WriteBlock(sb, part);
    WroteOrNot(c, ContentsOf(dev), sb, if ok then Some(part) else ContentsOf(dev)[sb]);
  }

  /** One block has changed. */
  lemma WroteOrNot(c: Contents, c': Contents, sb: nat, v: Option<Block>)
    requires |c'| == |c| && sb < |c| && c'[sb] == v
    requires forall w :: 0 <= w < |c| && w != sb ==> c'[w] == c[w]
    ensures c' == c[sb := v]
    ensures v == c[sb] ==> c' == c
  {}

  /** done bytes of from are on the device, nothing else has changed. */
  ghost predicate WroteSoFar(c: Contents, cur: Contents, bs: nat, start: nat, from: seq<byte>, done: nat)
    requires Sizes(c, bs)
  {
    && |cur| == |c| && Sizes(cur, bs)
    && done <= |from| && start + done <= |c| * bs
    && Flatten(cur, bs) == Splice(Flatten(c, bs), start, Wrap(from[..done]))
  }

  /** Blocks from sb on are still as they were. */
  ghost predicate Untouched(c: Contents, cur: Contents, sb: nat) {
    |cur| == |c| && forall b :: sb <= b < |c| ==> cur[b] == c[b]
  }

  lemma NothingWritten(c: Contents, bs: nat, start: nat, from: seq<byte>)
    requires Sizes(c, bs) && start <= |c| * bs
    ensures WroteSoFar(c, c, bs, start, from, 0) && Untouched(c, c, 0)
  {
    var f := Flatten(c, bs);
    assert f[..start] + [] + f[start..] == f;
  }

  lemma PartWrote(c: Contents, cur: Contents, bs: nat, start: nat, from: seq<byte>, done: nat, sb: nat, skip: nat,
                  n: nat)
    requires Sizes(c, bs) && WroteSoFar(c, cur, bs, start, from, done) && Untouched(c, cur, sb)
    requires sb < |c| && cur[sb].Some? && skip + n <= bs && done + n <= |from|
    requires start + done == sb * bs + skip
    ensures var cur' := cur[sb := Some(Splice(cur[sb].value, skip, from[done..done + n]))];
      WroteSoFar(c, cur', bs, start, from, done + n) && Untouched(c, cur', sb + 1)
  {
    hide Flatten, Wrap, Splice;
    PieceWritten(cur, bs, sb, skip, from[done..done + n]);
    MoreWritten(Flatten(c, bs), start, from, done, n);
  }

  lemma BlockWrote(c: Contents, cur: Contents, bs: nat, start: nat, from: seq<byte>, done: nat, sb: nat)
    requires Sizes(c, bs) && WroteSoFar(c, cur, bs, start, from, done) && Untouched(c, cur, sb)
    requires sb < |c| && done + bs <= |from| && start + done == sb * bs
    ensures var cur' := cur[sb := Some(from[done..done + bs])];
      WroteSoFar(c, cur', bs, start, from, done + bs) && Untouched(c, cur', sb + 1)
  {
    hide Flatten, Wrap, Splice;
    FlatUpdate(cur, bs, sb, Some(from[done..done + bs]));
    MoreWritten(Flatten(c, bs), start, from, done, bs);
  }

  lemma MoreWritten(f: Flat, start: nat, from: seq<byte>, done: nat, n: nat)
    requires done + n <= |from| && start + done + n <= |f|
    ensures Splice(Splice(f, start, Wrap(from[..done])), start + done, Wrap(from[done..done + n]))
         == Splice(f, start, Wrap(from[..done + n]))
  {
    hide Splice;
    SpliceTwice(f, start, Wrap(from[..done]), Wrap(from[done..done + n]));
    assert Wrap(from[..done]) + Wrap(from[done..done + n]) == Wrap(from[..done + n]);
  }

  /** The first done bytes of from are written; if a block write failed, the block it was
      for is lost; everything else is as before. */
  ghost predicate WriteOutcome(c: Contents, c': Contents, bs: nat, start: nat, from: seq<byte>, done: nat,
                               lost: Option<nat>, ok: bool)
    requires bs > 0 && Sizes(c, bs)
  {
    && ok == (done == |from|) && (ok ==> lost == None)
    && match lost
       case None => if from == [] then c' == c else WroteSoFar(c, c', bs, start, from, done)
       case Some(b) =>
         && b == (start + done) / bs && b < |c'|
         && exists cur: Contents :: |cur| == |c'| && c' == cur[b := None] && WroteSoFar(c, cur, bs, start, from, done)
  }

  /** The blocks that are read before they are written. */
  ghost predicate CanRewrite(c: Contents, bs: nat, start: nat, n: nat)
    requires bs > 0
  {
    n > 0 && start / bs < |c| && LastBlock(start, n, bs) < |c| ==>
      (start % bs != 0 ==> c[start / bs].Some?) && c[LastBlock(start, n, bs)].Some?
  }

  /** Between two rounds of the loop in generic_write_bytes. */
  ghost predicate Writing(c: Contents, cur: Contents, bs: nat, start: nat, from: seq<byte>, at: nat, sb: nat, skip: nat)
  {
    && Sizes(c, bs) && 0 < bs && 0 < |from| && start / bs <= LastBlock(start, |from|, bs) < |c|
    && at <= |from| && skip < bs && start / bs <= sb
    && (if at < |from| then sb <= LastBlock(start, |from|, bs) && start + at == sb * bs + skip
        else sb == LastBlock(start, |from|, bs) + 1 && c[sb - 1].Some?)
    && (if sb == start / bs then skip == start % bs else skip == 0 && (start % bs != 0 ==> c[start / bs].Some?))
    && WroteSoFar(c, cur, bs, start, from, at) && Untouched(c, cur, sb)
  }

  lemma WritingStarts(c: Contents, bs: nat, start: nat, from: seq<byte>)
    requires Sizes(c, bs) && 0 < bs && 0 < |from| && LastBlock(start, |from|, bs) < |c|
    ensures Writing(c, c, bs, start, from, 0, start / bs, start % bs)
  {
    hide WroteSoFar, Untouched, Sizes, LastBlock;
    StartFits(|c|, bs, start, |from|);
    NothingWritten(c, bs, start, from);
    UntouchedLater(c, start / bs);
  }

  lemma StartFits(n: nat, bs: nat, start: nat, len: nat)
    requires 0 < bs && 0 < len && LastBlock(start, len, bs) < n
    ensures start <= n * bs && start / bs <= LastBlock(start, len, bs)
    ensures start == start / bs * bs + start % bs && start % bs < bs
  {
    Bounds(start, len, bs);
    BlockFits(n, bs, LastBlock(start, len, bs));
  }

  lemma UntouchedLater(c: Contents, sb: nat)
    ensures Untouched(c, c, sb)
  {}

  /** How much of a block is left, and where the next one starts. */
  lemma WritingRoom(c: Contents, cur: Contents, bs: nat, start: nat, from: seq<byte>, at: nat, sb: nat, skip: nat)
    requires Writing(c, cur, bs, start, from, at, sb, skip) && at < |from|
    ensures cur[sb] == c[sb] && (start + at) / bs == sb
    ensures sb < LastBlock(start, |from|, bs) ==> at + (bs - skip) < |from| && start + at + (bs - skip) == (sb + 1) * bs
    ensures sb == LastBlock(start, |from|, bs) ==> |from| - at <= bs - skip
  {
    hide WroteSoFar, Sizes;
    var eb := LastBlock(start, |from|, bs);
    Bounds(start, |from|, bs);
    DivModUnique(start + at, bs, sb, skip);
    if sb < eb { NextBlockAt(sb, eb, bs); }
  }

  lemma WritingPart(c: Contents, cur: Contents, bs: nat, start: nat, from: seq<byte>, at: nat, sb: nat, skip: nat,
                    n: nat)
    requires Writing(c, cur, bs, start, from, at, sb, skip) && at < |from| && sb < |cur| && cur[sb].Some?
    requires n == if bs - skip > |from| - at then |from| - at else bs - skip
    requires |cur[sb].value| == bs
    ensures Writing(c, cur[sb := Some(Splice(cur[sb].value, skip, from[at..at + n]))],
                    bs, start, from, at + n, sb + 1, 0)
  {
    hide WroteSoFar, Sizes, Untouched, Splice;
    WritingRoom(c, cur, bs, start, from, at, sb, skip);
    PartWrote(c, cur, bs, start, from, at, sb, skip, n);
  }

  lemma WritingBlock(c: Contents, cur: Contents, bs: nat, start: nat, from: seq<byte>, at: nat, sb: nat)
    requires Writing(c, cur, bs, start, from, at, sb, 0) && at < |from| && sb < LastBlock(start, |from|, bs)
    ensures at + bs < |from| && sb < |cur|
    ensures Writing(c, cur[sb := Some(from[at..at + bs])], bs, start, from, at + bs, sb + 1, 0)
  {
    hide WroteSoFar, Sizes, Untouched;
    WritingRoom(c, cur, bs, start, from, at, sb, 0);
    LengthKept(c, cur, bs, start, from, at);
    BlockWrote(c, cur, bs, start, from, at, sb);
  }

  lemma LengthKept(c: Contents, cur: Contents, bs: nat, start: nat, from: seq<byte>, at: nat)
    requires Sizes(c, bs) && WroteSoFar(c, cur, bs, start, from, at)
    ensures |cur| == |c| && Sizes(cur, bs)
  {}

  lemma WritingStops(c: Contents, cur: Contents, c': Contents, bs: nat, start: nat, from: seq<byte>, at: nat,
                     sb: nat, skip: nat, lost: Option<nat>)
    requires Writing(c, cur, bs, start, from, at, sb, skip) && at < |from|
    requires if lost == None then c' == cur else lost == Some(sb) && sb < |cur| && c' == cur[sb := None]
    ensures WriteOutcome(c, c', bs, start, from, at, lost, false)
    ensures sb < |cur| && cur[sb] == None && (skip != 0 || sb == LastBlock(start, |from|, bs)) ==>
      !CanRewrite(c, bs, start, |from|)
  {
    hide WroteSoFar, Sizes;
    WritingRoom(c, cur, bs, start, from, at, sb, skip);
  }

  lemma WritingEnds(c: Contents, cur: Contents, bs: nat, start: nat, from: seq<byte>, sb: nat, skip: nat)
    requires Writing(c, cur, bs, start, from, |from|, sb, skip)
    ensures WriteOutcome(c, cur, bs, start, from, |from|, None, true)
    ensures CanRewrite(c, bs, start, |from|)
  {
    hide WroteSoFar, Sizes, Untouched;
  }

  /** Writes from at start; the last block, and a first block entered in the middle, are
      read first. */
  method WriteBytes(dev: Bdev, gbuf: array<byte>, start: nat, from: seq<byte>)
      returns (ok: bool, ghost done: nat, ghost lost: Option<nat>)
    requires Ready(dev) && gbuf.Length == dev.blockSize && dev.blockSize > 0
    requires |from| > 0 ==> LastBlock(start, |from|, dev.blockSize) < dev.blockCount
    modifies dev, gbuf
    ensures Ready(dev) && Sizes(old(ContentsOf(dev)), dev.blockSize)
    ensures WriteOutcome(old(ContentsOf(dev)), ContentsOf(dev), dev.blockSize, start, from, done, lost, ok)
    ensures dev.reliable ==> lost == None && ok == CanRewrite(old(ContentsOf(dev)), dev.blockSize, start, |from|)
  {
    hide Bdev.View, Bdev.Valid, Bdev.Separate, ContentsOf, Flatten, Wrap, Sizes, WroteSoFar, Untouched, Splice;
    ContentsReady(dev);
    done, lost := 0, None;
    var len, bs := |from|, dev.blockSize;
    if len == 0 { return true, 0, None; }
    hide WriteOutcome, CanRewrite;
    Bounds(start, len, bs);
    ghost var c := ContentsOf(dev);
    var startBlock: nat, endBlock: nat, at: nat := start / bs, LastBlock(start, len, bs), 0;
    var skipBytes := start - startBlock * bs;
    WritingStarts(c, bs, start, from);
    while len > 0
      invariant Ready(dev) && 0 <= at && at + len == |from| && 0 <= skipBytes
      invariant Writing(c, ContentsOf(dev), bs, start, from, at, startBlock, skipBytes)
      decreases len
    {
      ghost var cur := ContentsOf(dev);
      WritingRoom(c, cur, bs, start, from, at, startBlock, skipBytes);
      if skipBytes != 0 || startBlock == endBlock {
        var copy := if bs - skipBytes > len then len else bs - skipBytes;
        ok := PutPart(dev, gbuf, startBlock, skipBytes, from[at..at + copy]);
        if !ok {
          done := at;
          lost := if ContentsOf(dev) == cur then None else Some(startBlock);
          WritingStops(c, cur, ContentsOf(dev), bs, start, from, at, startBlock, skipBytes, lost);
          return;
        }
        ContentsReady(dev);
        SizeOf(cur, bs, startBlock);
        WritingPart(c, cur, bs, start, from, at, startBlock, skipBytes, copy);
        len, at, skipBytes, startBlock := len - copy, at + copy, 0, startBlock + 1;
      } else {
        WritingBlock(c, cur, bs, start, from, at, startBlock);
        ok := PutBlock(dev, startBlock, from[at..at + bs]);
        if !ok {
          done := at;
          lost := if ContentsOf(dev) == cur then None else Some(startBlock);
          WritingStops(c, cur, ContentsOf(dev), bs, start, from, at, startBlock, skipBytes, lost);
          return;
        }
        len, at, startBlock := len - bs, at + bs, startBlock + 1;
      }
    }
    WritingEnds(c, ContentsOf(dev), bs, start, from, startBlock, skipBytes);
    return true, |from|, None;
  }

  lemma SizeOf(c: Contents, bs: nat, b: nat)
    requires Sizes(c, bs) && b < |c| && c[b].Some?
    ensures |c[b].value| == bs
  {}

  /** Bytes that were written completely are the bytes a read of the same range returns. */
  lemma WriteThenRead(c: Contents, c': Contents, bs: nat, start: nat, from: seq<byte>, into: seq<byte>)
    requires bs > 0 && Sizes(c, bs) && Sizes(c', bs) && |into| == |from|
    requires WriteOutcome(c, c', bs, start, from, |from|, None, true)
    requires ReadOutcome(c', bs, start, into, true)
    ensures into == from
  {
    if from != [] {
      var f := Flatten(c, bs);
      assert from[..|from|] == from;
      assert Splice(f, start, Wrap(from))[start..start + |from|] == Wrap(from);
      WrapInjective(into, from);
    }
  }

  lemma WrapInjective(s: seq<byte>, t: seq<byte>)
    requires Wrap(s) == Wrap(t)
    ensures s == t
  {
    forall i | 0 <= i < |s|
      ensures s[i] == t[i]
    {
      assert Wrap(s)[i] == Wrap(t)[i];
    }
  }
}
