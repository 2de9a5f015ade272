/** Opening the verification layer, and whole runs of it on bases that may fail. */
module VerifyDevice {
  import opened Bits
  import opened Crc
  import opened Devices
  import opened Parity
  import opened PlainArray
  import opened VerifyLayout

  /** Refuses a base of one block, or of blocks too small for a checksum. */
  method VerifyCreate(blockSize: nat, base: Cells, reliable: bool, erasing: bool, keeping: bool, hashSafe: bool)
      returns (dev: Bdev?)
    requires blockSize > 0 && 0 < |base| <= NONE
    requires SizedCells(base, blockSize) && (reliable ==> AllReadable(base))
    requires (hashSafe ==> HashesReadable(base, blockSize))
    ensures dev == null <==> |base| == 1 || blockSize < 4
    ensures dev != null ==> fresh(dev) && dev.Valid() && dev.verified
    ensures dev != null ==>
      && dev.reliable == reliable && dev.erasing == erasing && dev.keeping == keeping && dev.hashSafe == hashSafe
    ensures dev != null ==>
      dev.base == base && dev.blockSize == blockSize && dev.whichHashBlock == NONE && dev.blockCount > 0
  {
    hide Crc32;
    if |base| == 1 || blockSize < 4 { return null; }
    RoomForData(blockSize / 4, |base|);
    var zeroCrc := CreateZeroCrc(blockSize);
    dev := new Bdev.Verify(blockSize, base, reliable, erasing, keeping, hashSafe, zeroCrc);
  }

  /** No header: on an all-zero base every block verifies, as zeros. */
  lemma ZeroBaseReadsZero(dev: Bdev, w: nat)
    requires dev.Valid() && dev.verified && dev.whichHashBlock == NONE && w < dev.blockCount
    requires forall k :: 0 <= k < |dev.base| ==> dev.base[k] == Some(Zeros(dev.blockSize))
    ensures dev.View(w) == Some(Zeros(dev.blockSize))
  {
    hide Crc32, Matches;
    DataAddrInRange(dev.blockSize / 4, |dev.base|, w);
    ZerosMatch(dev.blockSize, w % (dev.blockSize / 4), dev.zeroCrc, Zeros(dev.blockSize));
  }

  ghost function ContentsOf(dev: Bdev): (c: Contents)
    reads dev
    requires dev.Valid()
    ensures |c| == dev.blockCount
    ensures forall w :: 0 <= w < dev.blockCount ==> c[w] == dev.View(w)
  {
    ContentsTo(dev, dev.blockCount)
  }

  ghost function ContentsTo(dev: Bdev, k: nat): (c: Contents)
    reads dev
    requires dev.Valid() && k <= dev.blockCount
    ensures |c| == k
    ensures forall w :: 0 <= w < k ==> c[w] == dev.View(w)
  {
    if k == 0 then [] else ContentsTo(dev, k - 1) + [dev.View(k - 1)]
  }

  ghost predicate Fits(r: Request, dev: Bdev) {
    match r
    case Read(w) => w < dev.blockCount
    case Write(w, data) => w < dev.blockCount && |data| == dev.blockSize
    case Maintain => true
  }

  /** What lies under block w, checked or not. */
  ghost function UnderIn(d: Dev, w: nat): Option<Block> {
    var a := if d.cfg.verified && d.cfg.bs >= 4 then DataAddr(d.cfg.bs / 4, w) else w;
    if a < |d.base| then d.base[a] else None
  }

  ghost function Underneath(d: Dev): (c: Contents)
    ensures |c| == d.cfg.blockCount
  {
    seq(d.cfg.blockCount, w requires 0 <= w => UnderIn(d, w))
  }

  /** Only a write that succeeds puts something else under a block. */
  lemma UnderAfter(d: Dev, w: nat, from: Block, f: Fault, v: nat)
    requires Has(d, w) && Has(d, v)
    ensures var d' := AfterWrite(d, w, from, f);
      && (v != w ==> UnderIn(d', v) == UnderIn(d, v))
      && (v == w ==> if f.Fine? then UnderIn(d', w) == Some(from) else UnderIn(d', w) in {UnderIn(d, w), None})
    ensures UnderIn(AfterRead(d, w), v) == UnderIn(AfterClear(d), v) == UnderIn(d, v)
    ensures ViewIn(d, v) in {UnderIn(d, v), None}
  {
    hide Matches, Crc32, XorWord, PackBe32, HashCount, Splice;
    if d.cfg.verified {
      var h := d.cfg.bs / 4;
      NotAHash(h, w);
      NotAHash(h, v);
      DataAddrShape(h, w);
      if DataAddr(h, v) == DataAddr(h, w) { DataAddrInjective(h, v, w); }
    }
  }

  /** Nothing is under a block but what was last written there, if anything. */
  ghost predicate Holds(d: Dev, st: Contents) {
    |st| == d.cfg.blockCount && forall w: nat :: w < |st| ==> Has(d, w) && UnderIn(d, w) in {st[w], None}
  }

  /** What a request can make of a device. */
  ghost predicate Made(d: Dev, r: Request, out: Option<Block>, d': Dev) {
    match r
    case Read(w) => Has(d, w) && out == ViewIn(d, w) && d' == AfterRead(d, w)
    case Write(w, data) => Has(d, w) && Outcome(d, w, data, out.Some?, d')
    case Maintain => d' == AfterClear(d)
  }

  lemma StillHolds(d: Dev, st: Contents, r: Request, out: Option<Block>, d': Dev)
    requires Holds(d, st) && Made(d, r, out, d') && (forall w: nat :: w < |st| ==> Has(d', w))
    requires r.Maintain? || r.w < |st|
    ensures Holds(d', After(r, out, st)) && Sound(r, out, st)
  {
    hide Has, ViewIn, UnderIn, AfterWrite, AfterRead, AfterClear, CanHappen;
    var f := if r.Write? then
      var f :| CanHappen(d.cfg, f) && out.Some? == f.Fine? && d' == AfterWrite(d, r.w, r.data, f);
      f
    else
      Fine;
    SameConfig(d, if r.Maintain? then 0 else r.w, if r.Write? then r.data else [], f);
    forall v: nat | v < |st|
      ensures UnderIn(d', v) in {After(r, out, st)[v], None}
    {
      UnderAfter(d, if r.Maintain? then v else r.w, if r.Write? then r.data else [], f, v);
    }
    if r.Read? { UnderAfter(d, r.w, [], Fine, r.w); }
  }

  lemma SameConfig(d: Dev, w: nat, from: Block, f: Fault)
    ensures Has(d, w) ==> AfterWrite(d, w, from, f).cfg == AfterRead(d, w).cfg == d.cfg
    ensures AfterClear(d).cfg == d.cfg
  {}

  /** One request, on whatever device. */
  method Serve(dev: Bdev, r: Request, buf: array<byte>) returns (out: Option<Block>)
    requires dev.Valid() && Fits(r, dev) && buf.Length == dev.blockSize
    modifies dev, buf
    ensures dev.Valid() && Made(old(dev.St()), r, out, dev.St())
    ensures dev.Steady() ==> ContentsOf(dev) == FaultyAfter(r, out, old(ContentsOf(dev)))
    ensures ReadsAre(r, out, old(ContentsOf(dev))) && (dev.reliable && r.Write? ==> out.Some?)
  {
    hide Bdev.View, Bdev.Valid, Bdev.St, Bdev.Stale, Bdev.Revives, Bdev.Resurfaces, Bdev.Surfaces, ContentsTo;
    hide Outcome, AfterRead, AfterClear, ViewIn, Has;
    out := None;
    SteadyIsSeparate(dev);
    match r
    case Read(w) =>
      dev.HasBlock(w);
      var ok := dev.ReadBlock(w, buf, 0);
      if ok {
        assert buf[0..dev.blockSize] == buf[..];
        out := Some(buf[..]);
      }
    case Write(w, data) =>
      var ok := dev.WriteBlock(w, data);
      if ok { out := Some(data); }
    case Maintain =>
      dev.ClearCaches();
  }

  /** The states of a device from request to request. */
  ghost predicate MadeAll(trace: seq<Dev>, rs: seq<Request>, outs: seq<Option<Block>>) {
    && |trace| == |rs| + 1 == |outs| + 1
    && forall k :: 0 <= k < |rs| ==> Made(trace[k], rs[k], outs[k], trace[k + 1])
  }

  lemma MadeOn(trace: seq<Dev>, rs: seq<Request>, outs: seq<Option<Block>>, r: Request, out: Option<Block>, d: Dev)
    requires MadeAll(trace, rs, outs) && Made(trace[|rs|], r, out, d)
    ensures MadeAll(trace + [d], rs + [r], outs + [out])
  {
    hide Made;
  }

  /** Any run, whatever I/O fails and however: every read is of the state the requests before it have
      made, and when it succeeds returns what was last written with success, or what lay under the block
      to begin with. On steady devices reads are exact, a block being lost when a write of it fails;
      when none can fail that is the plain array. */
  method ServeAll(dev: Bdev, rs: seq<Request>) returns (outs: seq<Option<Block>>, ghost trace: seq<Dev>)
    requires dev.Valid() && forall k :: 0 <= k < |rs| ==> Fits(rs[k], dev)
    modifies dev
    ensures dev.Valid() && MadeAll(trace, rs, outs) && trace[0] == old(dev.St()) && trace[|rs|] == dev.St()
    ensures SoundRun(rs, outs, Underneath(old(dev.St())))
    ensures Holds(dev.St(), Replay(rs, outs, Underneath(old(dev.St()))))
    ensures dev.Steady() ==> FaultyRun(rs, outs, old(ContentsOf(dev)))
    ensures dev.Steady() ==> ContentsOf(dev) == FaultyReplay(rs, outs, old(ContentsOf(dev)))
    ensures dev.reliable ==> ExactRun(rs, outs, old(ContentsOf(dev)))
    ensures dev.reliable ==> ContentsOf(dev) == Replay(rs, outs, old(ContentsOf(dev)))
  {
    hide Bdev.View, ContentsTo, Replay, SoundRun, FaultyRun, FaultyReplay, Bdev.Valid, Bdev.Steady, Bdev.St;
    hide Sound, ReadsAre, Made, MadeAll, Holds, Underneath, After;
    ghost var initial, under, start := ContentsOf(dev), Underneath(dev.St()), dev.St();
    var buf := new byte[dev.blockSize](_ => 0);
    outs, trace := [], [start];
    NothingMade(start);
    NothingYet(under);
    NothingYet(initial);
    NothingFaulty(initial);
    UnderHolds(dev);
    assert rs[..0] == [];
    for k := 0 to |rs|
      invariant dev.Valid() && |outs| == k && MadeAll(trace, rs[..k], outs)
      invariant |trace| == k + 1 && trace[0] == start && trace[k] == dev.St()
      invariant SoundRun(rs[..k], outs, under) && Holds(dev.St(), Replay(rs[..k], outs, under))
      invariant dev.Steady() ==> FaultyRun(rs[..k], outs, initial)
      invariant dev.Steady() ==> ContentsOf(dev) == FaultyReplay(rs[..k], outs, initial)
      invariant dev.reliable ==> forall j :: 0 <= j < k && rs[j].Write? ==> outs[j].Some?
    {
      ghost var d := dev.St();
      var out := Serve(dev, rs[k], buf);
      Served(dev, d, Replay(rs[..k], outs, under), rs[k], out);
      ReplayStep(rs[..k], outs, under, rs[k], out);
      if dev.Steady() { FaultyStep(rs[..k], outs, initial, rs[k], out); }
      MadeOn(trace, rs[..k], outs, rs[k], out, dev.St());
      assert rs[..k + 1] == rs[..k] + [rs[k]];
      outs, trace := outs + [out], trace + [dev.St()];
    }
    assert rs[..|rs|] == rs;
    if dev.reliable {
      ReliableSteady(dev);
      FaultyShowsLess(rs, outs, initial);
      FaultyIsSound(rs, outs, initial);
    }
  }

  lemma NothingMade(d: Dev)
    ensures MadeAll([d], [], [])
  {}

  lemma SteadyIsSeparate(dev: Bdev)
    ensures dev.Steady() ==> dev.Separate()
  {}

  lemma NothingFaulty(st: Contents)
    ensures FaultyReplay([], [], st) == st && FaultyRun([], [], st)
  {}

  lemma ReliableSteady(dev: Bdev)
    ensures dev.reliable ==> dev.Steady()
  {}

  lemma UnderHolds(dev: Bdev)
    requires dev.Valid()
    ensures Holds(dev.St(), Underneath(dev.St()))
  {
    hide Has, UnderIn, Bdev.View, Bdev.Valid;
    forall w: nat | w < dev.blockCount
      ensures Has(dev.St(), w)
    {
      dev.HasBlock(w);
    }
  }

  lemma Served(dev: Bdev, d: Dev, st: Contents, r: Request, out: Option<Block>)
    requires dev.Valid() && Holds(d, st) && Made(d, r, out, dev.St()) && Fits(r, dev) && |st| == dev.blockCount
    ensures Holds(dev.St(), After(r, out, st)) && Sound(r, out, st)
  {
    hide Has, UnderIn, Bdev.View, Bdev.Valid, Made;
    forall w: nat | w < dev.blockCount
      ensures Has(dev.St(), w)
    {
      dev.HasBlock(w);
    }
    StillHolds(d, st, r, out, dev.St());
  }
}
