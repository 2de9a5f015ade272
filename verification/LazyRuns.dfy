/** Whole runs of requests against the lazily zeroed device. */
module LazyRuns {
  import opened Bits
  import opened BlockCaching
  import opened Devices
  import opened LazyZeroing
  import opened Parity
  import opened PlainArray

  /** What the layer shows of sight s. */
  ghost function ShownTo(l: Layout, s: Sight, k: nat): (c: Contents)
    requires Proper(l, s) && k <= l.blockCount
    ensures |c| == k && forall w :: 0 <= w < k ==> c[w] == Shows(l, s, w)
  {
    if k == 0 then [] else ShownTo(l, s, k - 1) + [Shows(l, s, k - 1)]
  }

  ghost function ShownIn(l: Layout, s: Sight): (c: Contents)
    requires Proper(l, s)
    ensures |c| == l.blockCount && forall w :: 0 <= w < |c| ==> c[w] == Shows(l, s, w)
  {
    ShownTo(l, s, l.blockCount)
  }

  ghost function Shown(dev: LazyZero): (c: Contents)
    reads dev.cache.base, dev.cache.data, dev.cache.indexes, dev.cache.dirty
    requires dev.Wired() && Proper(dev.layout, dev.Sees())
    ensures |c| == dev.layout.blockCount
    ensures forall w :: 0 <= w < |c| ==> c[w] == Shows(dev.layout, dev.Sees(), w)
  {
    ShownIn(dev.layout, dev.Sees())
  }

  ghost predicate Fits(r: Request, l: Layout) {
    match r
    case Read(w) => w < l.blockCount
    case Write(w, data) => w < l.blockCount && |data| == l.bs
    case Maintain => true
  }

  /** The device can be used: what is seen of the base has the right sizes. */
  ghost predicate Usable(dev: LazyZero)
    reads dev.cache.base, dev.cache.data, dev.cache.indexes, dev.cache.dirty
  {
    dev.Wired() && Proper(dev.layout, dev.Sees())
  }

  /** Moreover nothing fails. */
  ghost predicate Working(dev: LazyZero)
    reads dev.cache.base, dev.cache.data, dev.cache.indexes, dev.cache.dirty
  {
    Usable(dev) && dev.cache.base.reliable && dev.Bitmapped()
  }

  /** The caller's buffer is not one of the layer's own. */
  ghost predicate Apart(buf: array<byte>, dev: LazyZero) {
    buf != dev.cache.data && buf != dev.cache.dirty && buf != dev.gbuf
  }

  /** What can be seen between two requests: the base through the cache, and the base. */
  datatype Sides = Sides(sees: Sight, held: Contents)

  ghost function SidesOf(dev: LazyZero): Sides
    reads dev.cache.base, dev.cache.data, dev.cache.indexes, dev.cache.dirty
    requires dev.Wired()
  {
    Sides(dev.Sees(), dev.Held())
  }

  /** What a write does, up to the bitmap blocks that are lost meanwhile. */
  ghost predicate WriteStep(l: Layout, a: Sides, w: nat, data: Block, ok: bool, lost: set<nat>, b: Sides)
    requires Proper(l, a.sees) && Proper(l, b.sees) && w < l.blockCount && |a.sees| == |b.sees|
  {
    ChunkInRange(l, |a.sees|, w);
    var r := Receded(a.sees, b.sees, lost);
    && Lapsed(l, a.sees, a.held, b.sees, lost, ChunkOf(l, w))
    && Proper(l, r) && WroteOne(l, r, b.sees, w, ok, data, false) && BitmapKept(l, r, b.sees, ChunkOf(l, w))
  }

  /** What a request does: up to the bitmap blocks that are lost meanwhile, a read returns what is shown
      and changes nothing, a write changes what is shown of its block, and after a flush the base holds
      what is seen. */
  ghost predicate Step(l: Layout, a: Sides, r: Request, out: Option<Block>, lost: set<nat>, b: Sides) {
    && Proper(l, a.sees) && Proper(l, b.sees) && |a.sees| == |b.sees|
    && match r
       case Read(w) =>
         && w < l.blockCount && Recedes(l, a.sees, a.held, b.sees, lost)
         && out == Shows(l, a.sees, w) == Shows(l, b.sees, w)
       case Write(w, data) => w < l.blockCount && WriteStep(l, a, w, data, out.Some?, lost, b)
       case Maintain => Recedes(l, a.sees, a.held, b.sees, lost) && b.held == b.sees
  }

  /** A write is refused, where failed writes lose the block, only when its chunk is impaired. */
  ghost predicate Hindered(l: Layout, r: Request, b: Sides)
    requires Proper(l, b.sees)
  {
    r.Write? && r.w < l.blockCount && (ChunkInRange(l, |b.sees|, r.w); Impaired(l, b.sees, ChunkOf(l, r.w)))
  }

  method Serve(dev: LazyZero, r: Request, buf: array<byte>) returns (out: Option<Block>, ghost lost: set<nat>)
    requires Usable(dev) && Fits(r, dev.layout) && buf.Length == dev.layout.bs && Apart(buf, dev)
    modifies dev.cache.base, dev.cache.data, dev.cache.indexes, dev.cache.dirty, dev.gbuf, buf
    ensures Usable(dev) && Step(dev.layout, old(SidesOf(dev)), r, out, lost, SidesOf(dev))
    ensures dev.cache.base.Steady() && r.Write? && out.None? ==> Hindered(dev.layout, r, SidesOf(dev))
    ensures dev.cache.base.reliable ==> lost == {}
    ensures old(Working(dev)) ==> Working(dev) && (r.Write? ==> out.Some?)
  {
    hide Bdev.Valid, BlockCache.Valid, BlockCache.Now, LazyZero.SeesTo, LazyZero.Sees, Shows, ChunkSet, ShownTo;
    hide Bdev.Steady, Impaired, Lapsed, WroteOne, BitmapKept, MapBlock, ChunkOf, Receded;
    out := None;
    ghost var a := SidesOf(dev);
    match r
    case Read(w) =>
      out, lost := ServeRead(dev, w, buf);
    case Write(w, data) =>
      var ok;
      ok, lost := ServeWrite(dev, w, data, buf);
      if ok { out := Some(data); }
    case Maintain =>
      lost := dev.Flush();
      FlushedProper(dev.layout, a.sees, a.held, dev.Sees(), lost);
      BothSame(dev);
  }

  method ServeRead(dev: LazyZero, w: nat, buf: array<byte>) returns (out: Option<Block>, ghost lost: set<nat>)
    requires Usable(dev) && w < dev.layout.blockCount && buf.Length == dev.layout.bs && Apart(buf, dev)
    modifies dev.cache.base, dev.cache.data, dev.cache.indexes, dev.cache.dirty, buf
    ensures Usable(dev) && Step(dev.layout, old(SidesOf(dev)), Read(w), out, lost, SidesOf(dev))
    ensures dev.cache.base.reliable ==> lost == {}
    ensures old(Working(dev)) ==> Working(dev)
  {
    hide Bdev.Valid, BlockCache.Valid, BlockCache.Now, LazyZero.SeesTo, LazyZero.Sees, Shows, ChunkSet, ShownTo;
    hide Recedes, MapBlock, ChunkOf;
    var ok;
    ok, lost := dev.ReadBlock(w, buf);
    out := if ok then Some(buf[..]) else None;
  }

  method ServeWrite(dev: LazyZero, w: nat, data: Block, buf: array<byte>) returns (ok: bool, ghost lost: set<nat>)
    requires Usable(dev) && w < dev.layout.blockCount && |data| == dev.layout.bs == buf.Length && Apart(buf, dev)
    modifies dev.cache.base, dev.cache.data, dev.cache.indexes, dev.cache.dirty, dev.gbuf, buf
    ensures Usable(dev) && WriteStep(dev.layout, old(SidesOf(dev)), w, data, ok, lost, SidesOf(dev))
    ensures dev.cache.base.Steady() && !ok ==> Hindered(dev.layout, Write(w, data), SidesOf(dev))
    ensures dev.cache.base.reliable ==> lost == {}
    ensures old(Working(dev)) ==> Working(dev) && ok
  {
    hide Bdev.Valid, BlockCache.Valid, BlockCache.Now, LazyZero.SeesTo, LazyZero.Sees, Shows, ChunkSet, ShownTo;
    hide Bdev.Steady, Impaired, Lapsed, WroteOne, BitmapKept, MapBlock, ChunkOf;
    ghost var s := dev.Sees();
    Fill(buf, data, dev);
    ok, lost := dev.WriteBlock(w, buf);
    if old(Working(dev)) { KeptReadable(dev.layout, s, dev.Sees(), ChunkOf(dev.layout, w)); }
  }

  lemma KeptReadable(l: Layout, s: Sight, s': Sight, chunk: nat)
    requires l.Valid(|s|) && |s| == |s'| && MapBlock(l, chunk) < l.bitmapBlocks && BitmapKept(l, s, s', chunk)
    ensures BitmapReadable(l, s) ==> BitmapReadable(l, s')
  {}

  lemma FlushedProper(l: Layout, s: Sight, base: Contents, s': Sight, lost: set<nat>)
    requires Recedes(l, s, base, s', lost)
    ensures lost == {} ==> s' == s
  {}

  lemma BothSame(dev: LazyZero)
    requires dev.Wired()
    requires forall b :: 0 <= b < dev.cache.base.blockCount ==> dev.cache.base.View(b) == dev.Sees()[b]
    ensures dev.Held() == dev.Sees()
  {
    hide LazyZero.SeesTo, Bdev.View, Bdev.Valid;
  }

  method Fill(buf: array<byte>, data: Block, dev: LazyZero)
    requires Usable(dev) && buf.Length == |data| && Apart(buf, dev)
    modifies buf
    ensures Usable(dev) && SidesOf(dev) == old(SidesOf(dev)) && buf[..] == data
  {
    hide Bdev.Valid, BlockCache.Valid, BlockCache.Now, LazyZero.SeesTo, Proper;
    ghost var s := SidesOf(dev);
    for i := 0 to |data|
      invariant Usable(dev) && SidesOf(dev) == s
      invariant buf[..i] == data[..i]
    {
      buf[i] := data[i];
    }
  }

  ghost predicate Trace(l: Layout, trace: seq<Sides>, rs: seq<Request>, outs: seq<Option<Block>>,
                        losts: seq<set<nat>>) {
    && |trace| == |rs| + 1 == |outs| + 1 == |losts| + 1
    && forall k :: 0 <= k < |rs| ==> Step(l, trace[k], rs[k], outs[k], losts[k], trace[k + 1])
  }

  ghost predicate NothingLost(losts: seq<set<nat>>) { forall k :: 0 <= k < |losts| ==> losts[k] == {} }

  ghost predicate NoneRefused(rs: seq<Request>, outs: seq<Option<Block>>)
    requires |rs| == |outs|
  {
    forall k :: 0 <= k < |rs| && rs[k].Write? ==> outs[k].Some?
  }

  lemma TraceOn(l: Layout, trace: seq<Sides>, rs: seq<Request>, outs: seq<Option<Block>>, losts: seq<set<nat>>,
                r: Request, out: Option<Block>, lost: set<nat>, b: Sides)
    requires Trace(l, trace, rs, outs, losts) && Step(l, trace[|rs|], r, out, lost, b)
    ensures Trace(l, trace + [b], rs + [r], outs + [out], losts + [lost])
  {
    hide Step;
  }

  /** Any run of reads, writes and flushes, whatever fails. */
  method ServeAll(dev: LazyZero, rs: seq<Request>, buf: array<byte>)
      returns (outs: seq<Option<Block>>, ghost losts: seq<set<nat>>, ghost trace: seq<Sides>)
    requires Usable(dev) && buf.Length == dev.layout.bs && Apart(buf, dev)
    requires forall k :: 0 <= k < |rs| ==> Fits(rs[k], dev.layout)
    modifies dev.cache.base, dev.cache.data, dev.cache.indexes, dev.cache.dirty, dev.gbuf, buf
    ensures Usable(dev) && Trace(dev.layout, trace, rs, outs, losts)
    ensures trace[0] == old(SidesOf(dev)) && trace[|rs|] == SidesOf(dev)
    ensures dev.cache.base.Steady() ==> forall k :: 0 <= k < |rs| && rs[k].Write? && outs[k].None? ==>
      Proper(dev.layout, trace[k + 1].sees) && Hindered(dev.layout, rs[k], trace[k + 1])
    ensures dev.cache.base.reliable ==> NothingLost(losts)
    ensures old(Working(dev)) ==> Working(dev) && NoneRefused(rs, outs)
  {
    hide Bdev.Valid, BlockCache.Valid, LazyZero.SeesTo, LazyZero.Sees, Step, Bdev.Steady, Hindered, Proper;
    hide LazyZero.Bitmapped, LazyZero.Wired;
    ghost var start := SidesOf(dev);
    outs, losts, trace := [], [], [start];
    assert rs[..0] == [];
    for k := 0 to |rs|
      invariant Usable(dev) && Trace(dev.layout, trace, rs[..k], outs, losts)
      invariant |trace| == k + 1 && trace[0] == start && trace[k] == SidesOf(dev)
      invariant dev.cache.base.Steady() ==> forall j :: 0 <= j < k && rs[j].Write? && outs[j].None? ==>
        Proper(dev.layout, trace[j + 1].sees) && Hindered(dev.layout, rs[j], trace[j + 1])
      invariant dev.cache.base.reliable ==> NothingLost(losts)
      invariant old(Working(dev)) ==> Working(dev) && NoneRefused(rs[..k], outs)
    {
      var out;
      ghost var lost;
      out, lost := Serve(dev, rs[k], buf);
      TraceOn(dev.layout, trace, rs[..k], outs, losts, rs[k], out, lost, SidesOf(dev));
      assert rs[..k + 1] == rs[..k] + [rs[k]];
      outs, losts, trace := outs + [out], losts + [lost], trace + [SidesOf(dev)];
    }
    assert rs[..|rs|] == rs;
  }

  /** As long as no bitmap block is lost the device is sound for the plain array of what it showed at
      first: a refused write leaves its block as it was or unreadable. Unless a write is refused it is
      that array. */
  lemma {:induction false} LosslessRun(l: Layout, trace: seq<Sides>, rs: seq<Request>, outs: seq<Option<Block>>,
                                       losts: seq<set<nat>>)
    requires Trace(l, trace, rs, outs, losts) && NothingLost(losts) && Proper(l, trace[0].sees)
    ensures Proper(l, trace[|rs|].sees)
    ensures var st := ShownIn(l, trace[0].sees);
      && SoundRun(rs, outs, st) && Weaker(ShownIn(l, trace[|rs|].sees), Replay(rs, outs, st))
      && (NoneRefused(rs, outs) ==>
            ExactRun(rs, outs, st) && ShownIn(l, trace[|rs|].sees) == Replay(rs, outs, st))
    decreases |rs|
  {
    hide SoundRun, ExactRun, ShownIn, Proper, Step;
    var st := ShownIn(l, trace[0].sees);
    NothingYet(st);
    if rs != [] {
      var n := |rs| - 1;
      LosslessRun(l, trace[..n + 1], rs[..n], outs[..n], losts[..n]);
      assert Step(l, trace[n], rs[n], outs[n], losts[n], trace[n + 1]);
      assert losts[n] == {};
      LosslessStep(l, trace[n], rs[n], outs[n], trace[n + 1], Replay(rs[..n], outs[..n], st));
      ReplayStep(rs[..n], outs[..n], st, rs[n], outs[n]);
      assert rs == rs[..n] + [rs[n]] && outs == outs[..n] + [outs[n]];
    }
  }

  /** Every block shows what the other does, or nothing. */
  ghost predicate Weaker(c: Contents, st: Contents) {
    |c| == |st| && forall w :: 0 <= w < |c| ==> c[w] in {st[w], None}
  }

  lemma LosslessStep(l: Layout, a: Sides, r: Request, out: Option<Block>, b: Sides, st: Contents)
    requires Step(l, a, r, out, {}, b) && Proper(l, a.sees) && Weaker(ShownIn(l, a.sees), st)
    ensures Proper(l, b.sees) && Weaker(ShownIn(l, b.sees), After(r, out, st)) && Sound(r, out, st)
    ensures ShownIn(l, a.sees) == st && (r.Write? ==> out.Some?) ==>
      Exact(r, out, st) && ShownIn(l, b.sees) == After(r, out, st)
  {
    hide Shows, ShownTo, BitmapKept, Lapsed, ChunkSet, OtherBits, Buffered, MapBlock, ChunkOf;
    if r.Write? {
      assert Receded(a.sees, b.sees, {}) == a.sees;
    } else {
      FlushedProper(l, a.sees, a.held, b.sees, {});
    }
  }
}
