/** Whole runs of requests against the block cache. */
module CacheRuns {
  import opened BlockCaching
  import opened Devices
  import opened Parity
  import opened PlainArray
  import opened VerifyDevice

  ghost function SeenTo(st: State, slots: Slots, k: nat): (c: Contents)
    requires slots.size > 0 && |st.tags| == |st.rows| == slots.size && k <= |st.base|
    ensures |c| == k && forall b :: 0 <= b < k ==> c[b] == Seen(st, slots, b)
  {
    if k == 0 then [] else SeenTo(st, slots, k - 1) + [Seen(st, slots, k - 1)]
  }

  /** The block map the cache stands for. */
  ghost function Shown(c: BlockCache): (m: Contents)
    reads c.base, c.data, c.indexes, c.dirty
    requires c.Valid()
    ensures |m| == c.base.blockCount && forall b :: 0 <= b < |m| ==> m[b] == Seen(c.Now(), c.slots, b)
  {
    SeenTo(c.Now(), c.slots, c.base.blockCount)
  }

  /** What can be seen between two requests: the map the cache stands for, and what the base holds. */
  datatype Sides = Sides(shown: Contents, base: Contents)

  ghost function SidesOf(c: BlockCache): Sides
    reads c.base, c.data, c.indexes, c.dirty
    requires c.Valid()
  {
    Sides(Shown(c), ContentsOf(c.base))
  }

  ghost predicate Fits(r: Request, c: BlockCache) {
    match r
    case Read(w) => w < c.base.blockCount
    case Write(w, data) => w < c.base.blockCount && |data| == c.base.blockSize
    case Maintain => true
  }

  /** Blocks whose write back failed are what the base held, or nothing. */
  ghost predicate Faded(a: Sides, m: Contents, lost: set<nat>) {
    && |m| == |a.shown| == |a.base|
    && (forall x :: x in lost ==> x < |m|)
    && forall x: nat :: x < |m| ==> if x in lost then m[x] in {a.base[x], None} else m[x] == a.shown[x]
  }

  /** What a request does: up to the blocks that are lost meanwhile, a read returns what is shown, a
      write changes what is shown of its block and is refused only where there is nothing, and after a
      flush the base holds what is shown. */
  ghost predicate Step(a: Sides, r: Request, out: Option<Block>, lost: set<nat>, b: Sides) {
    match r
    case Read(w) => Faded(a, b.shown, lost) && w !in lost && w < |a.shown| && out == a.shown[w]
    case Write(w, data) =>
      && w !in lost && w < |a.shown| == |b.shown| && (out.Some? <==> a.shown[w].Some?)
      && b.shown[w] == (if out.Some? then Some(data) else a.shown[w])
      && Faded(a, b.shown[w := a.shown[w]], lost)
    case Maintain => Faded(a, b.shown, lost) && b.base == b.shown
  }

  /** A block is read into the cache before it is written. */
  method Serve(c: BlockCache, r: Request) returns (out: Option<Block>, ghost lost: set<nat>)
    requires c.Valid() && Fits(r, c)
    modifies c.base, c.data, c.indexes, c.dirty
    ensures c.Valid() && Step(old(SidesOf(c)), r, out, lost, SidesOf(c))
    ensures c.base.reliable ==> lost == {}
  {
    hide Bdev.View, Bdev.Valid, BlockCache.Valid, Seen, SeenTo, ContentsOf, DirtyIn;
    out, lost := None, {};
    ghost var m := Shown(c);
    match r
    case Read(w) =>
      var ok;
      ok, lost := c.ReadBlock(w);
      if ok {
        var bl := c.CachedBlock(w);
        out := Some(bl);
      }
    case Write(w, data) =>
      var ok;
      ok, lost := c.ReadBlock(w);
      ghost var m1 := Shown(c);
      if ok {
        c.WriteBlock(w, data);
        assert Shown(c) == m1[w := Some(data)];
        out := Some(data);
      }
      assert Shown(c)[w := m[w]] == m1;
    case Maintain =>
      lost := c.Flush();
      assert SidesOf(c).base == SidesOf(c).shown;
  }

  ghost predicate Trace(trace: seq<Sides>, rs: seq<Request>, outs: seq<Option<Block>>, losts: seq<set<nat>>) {
    && |trace| == |rs| + 1 == |outs| + 1 == |losts| + 1
    && forall k :: 0 <= k < |rs| ==> Step(trace[k], rs[k], outs[k], losts[k], trace[k + 1])
  }

  ghost predicate NothingLost(losts: seq<set<nat>>) { forall k :: 0 <= k < |losts| ==> losts[k] == {} }

  lemma TraceOn(trace: seq<Sides>, rs: seq<Request>, outs: seq<Option<Block>>, losts: seq<set<nat>>, r: Request,
                out: Option<Block>, lost: set<nat>, b: Sides)
    requires Trace(trace, rs, outs, losts) && Step(trace[|rs|], r, out, lost, b)
    ensures Trace(trace + [b], rs + [r], outs + [out], losts + [lost])
  {
    hide Step;
  }

  /** Any run of reads, updates and flushes, whatever fails. */
  method ServeAll(c: BlockCache, rs: seq<Request>)
      returns (outs: seq<Option<Block>>, ghost losts: seq<set<nat>>, ghost trace: seq<Sides>)
    requires c.Valid() && forall k :: 0 <= k < |rs| ==> Fits(rs[k], c)
    modifies c.base, c.data, c.indexes, c.dirty
    ensures c.Valid() && Trace(trace, rs, outs, losts) && (c.base.reliable ==> NothingLost(losts))
    ensures trace[0] == old(SidesOf(c)) && trace[|rs|] == SidesOf(c)
  {
    hide Bdev.View, Bdev.Valid, BlockCache.Valid, BlockCache.Now, Seen, SeenTo, ContentsOf, Step;
    outs, losts, trace := [], [], [SidesOf(c)];
    ghost var start := SidesOf(c);
    assert rs[..0] == [];
    for k := 0 to |rs|
      invariant c.Valid() && Trace(trace, rs[..k], outs, losts) && (c.base.reliable ==> NothingLost(losts))
      invariant |trace| == k + 1 && trace[0] == start && trace[k] == SidesOf(c)
    {
      var out;
      ghost var lost;
      out, lost := Serve(c, rs[k]);
      TraceOn(trace, rs[..k], outs, losts, rs[k], out, lost, SidesOf(c));
      assert rs[..k + 1] == rs[..k] + [rs[k]];
      outs, losts, trace := outs + [out], losts + [lost], trace + [SidesOf(c)];
    }
    assert rs[..|rs|] == rs;
  }

  ghost predicate AllShown(m: Contents) { forall b :: 0 <= b < |m| ==> m[b].Some? }

  /** As long as no block is lost the cache is the plain block map; no request fails when all of it
      could be read at first. */
  lemma {:induction false} LosslessRun(trace: seq<Sides>, rs: seq<Request>, outs: seq<Option<Block>>,
                                       losts: seq<set<nat>>)
    requires Trace(trace, rs, outs, losts) && NothingLost(losts)
    ensures SoundRun(rs, outs, trace[0].shown)
    ensures trace[|rs|].shown == Replay(rs, outs, trace[0].shown)
    ensures AllShown(trace[0].shown) ==> ExactRun(rs, outs, trace[0].shown) && AllShown(trace[|rs|].shown)
    decreases |rs|
  {
    hide SoundRun, ExactRun, Replay, Step, AllShown;
    NothingYet(trace[0].shown);
    if rs != [] {
      var n := |rs| - 1;
      LosslessRun(trace[..n + 1], rs[..n], outs[..n], losts[..n]);
      assert Step(trace[n], rs[n], outs[n], losts[n], trace[n + 1]);
      assert losts[n] == {};
      LosslessStep(trace[n], rs[n], outs[n], trace[n + 1]);
      ReplayStep(rs[..n], outs[..n], trace[0].shown, rs[n], outs[n]);
      assert rs == rs[..n] + [rs[n]] && outs == outs[..n] + [outs[n]];
    }
  }

  lemma LosslessStep(a: Sides, r: Request, out: Option<Block>, b: Sides)
    requires Step(a, r, out, {}, b)
    ensures b.shown == After(r, out, a.shown) && Sound(r, out, a.shown)
    ensures AllShown(a.shown) ==> Exact(r, out, a.shown) && AllShown(b.shown)
  {
    if r.Write? { assert b.shown[r.w := a.shown[r.w]] == a.shown; }
  }
}
