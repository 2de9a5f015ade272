/** Opening the parity device, and whole runs of it: on devices that may fail, and over verified
    devices whose base blocks are silently corrupted along the way. */
module XorRuns {
  import opened Bits
  import opened Crc
  import opened Devices
  import opened Happenings
  import opened Parity
  import opened PlainArray
  import opened RowMajor
  import opened VerifyLayout
  import opened XorLayer
  import opened XorLayout

  // ---- xor_open

  ghost predicate IsMinimum(devices: seq<Bdev>, least: nat)
  {
    && (forall i :: 0 <= i < |devices| ==> least <= devices[i].blockCount)
    && exists i :: 0 <= i < |devices| && devices[i].blockCount == least
  }

  ghost predicate SameBlockSize(devices: seq<Bdev>) {
    forall i :: 0 <= i < |devices| ==> devices[i].blockSize == devices[0].blockSize
  }

  method MinDriveSize(devices: seq<Bdev>) returns (least: nat)
    requires |devices| > 0
    ensures IsMinimum(devices, least)
  {
    least := devices[0].blockCount;
    ghost var at := 0;
    for i := 1 to |devices|
      invariant 0 <= at < i && devices[at].blockCount == least
      invariant forall j :: 0 <= j < i ==> least <= devices[j].blockCount
    {
      if devices[i].blockCount < least {
        least := devices[i].blockCount;
        at := i;
      }
    }
  }

  /** What the devices hold at open: per slice, contents that cancel and agree with every
      readable block, unless two blocks are gone. */
  ghost predicate Holds(devices: seq<Bdev>, bs: nat, model: seq<seq<Block>>)
    reads devices
  {
    forall s :: 0 <= s < |model| ==>
      && |model[s]| == |devices| && Even(model[s], bs) && Cancels(model[s], bs)
      && forall i :: 0 <= i < |devices| ==>
        devices[i].Valid() && s < devices[i].blockCount && devices[i].View(s) in {Some(model[s][i]), None}
  }

  /** Refuses fewer than three devices and unequal block sizes. The array can be trusted when the
      devices hold what model says. */
  method XorOpen(devices: seq<Bdev>, ghost model: seq<seq<Block>>) returns (dev: XorDevice?)
    requires forall i, j :: 0 <= i < j < |devices| ==> devices[i] != devices[j]
    requires forall i :: 0 <= i < |devices| ==> devices[i].Valid() && devices[i].blockCount <= NONE
    ensures dev == null <==> |devices| < 3 || !SameBlockSize(devices)
    ensures dev != null ==> fresh(dev) && fresh(dev.slice) && dev.Valid() && dev.devices == devices
    ensures dev != null ==> IsMinimum(devices, dev.slices) && dev.sliceIndex == NONE && !dev.sliceDirty
    ensures dev != null && Holds(devices, devices[0].blockSize, model) && |model| == dev.slices ==>
      dev.honest && dev.model == model
  {
    hide Bdev.View, Bdev.Valid, Cancels;
    if |devices| < 3 { return null; }
    var blockSize := devices[0].blockSize;
    for i := 1 to |devices|
      invariant forall j :: 0 <= j < i ==> devices[j].blockSize == blockSize
    {
      if devices[i].blockSize != blockSize { return null; }
    }
    var least := MinDriveSize(devices);
    var slice := new byte[|devices| * blockSize](_ => 0);
    ghost var honest := Holds(devices, blockSize, model) && |model| == least;
    ghost var m := if honest then model else seq(least, _ => seq(|devices|, _ => Zeros(blockSize)));
    if !honest { ZerosCancel(|devices|, blockSize); }
    dev := new XorDevice.Open(devices, blockSize, least, slice, m, honest);
  }

  lemma ZerosCancel(count: nat, bs: nat)
    ensures var g := seq(count, _ => Zeros(bs)); Even(g, bs) && Cancels(g, bs)
  {
    var g := seq(count, _ => Zeros(bs));
    forall i | 0 <= i < bs
      ensures XorTo(g, i, |g|, |g|) == 0
    {
      ZeroBlocksCancel(g, bs, i, |g|);
    }
  }

  /** All-zero devices are a valid array holding zeros. */
  lemma ZeroDevicesHold(devices: seq<Bdev>, bs: nat, slices: nat)
    requires forall i :: 0 <= i < |devices| ==> devices[i].Valid() && slices <= devices[i].blockCount
    requires forall i, s :: 0 <= i < |devices| && 0 <= s < slices ==> devices[i].View(s) == Some(Zeros(bs))
    ensures Holds(devices, bs, seq(slices, _ => seq(|devices|, _ => Zeros(bs))))
  {
    hide Bdev.View, Bdev.Valid, Cancels;
    ZerosCancel(|devices|, bs);
  }

  // ---- where the blocks are

  /** Block d of slice s, of those that are not parity; the parity of slice s is on device s modulo the
      number of devices. */
  ghost predicate IsCell(count: nat, w: nat, s: nat, i: nat)
    requires count > 1
  {
    var d := w % (count - 1);
    s == w / (count - 1) && i == if s % count <= d then d + 1 else d
  }

  lemma CellFits(x: XorDevice, w: nat, s: nat, i: nat)
    requires x.Valid() && w < x.blockCount && IsCell(x.count, w, s, i)
    ensures s < x.slices && i < x.count && i != s % x.count
    ensures x.devices[i].Valid() && s < x.devices[i].blockCount
  {
    hide Bdev.View, Bdev.Valid;
    CellInRange(x.count, x.slices, w);
    assert x.Fits(x.devices[i]);
  }

  /** An honest array holds each block where it should: in its buffer, and on the devices unless it is in
      the buffer only, or the slice misses two blocks. */
  lemma LiesAt(x: XorDevice, w: nat, s: nat, i: nat)
    requires x.Valid() && x.honest && w < x.blockCount && IsCell(x.count, w, s, i)
    ensures s < x.slices && i < x.count && i != s % x.count
    ensures x.devices[i].Valid() && s < x.devices[i].blockCount
    ensures x.sliceIndex == s ==> x.Rows()[i] == x.Logical(w)
    ensures (x.sliceIndex != s || !x.sliceDirty) && !Lost(x.Columns()[s]) ==>
      x.devices[i].View(s) in {Some(x.Logical(w)), None}
  {
    hide Bdev.View, Bdev.Valid, Lost, Cancels, Even, XorDevice.ColumnsTo, Grid;
    CellInRange(x.count, x.slices, w);
    assert x.Fits(x.devices[i]);
    x.CellsShow();
    assert x.Columns()[s][i] == x.devices[i].View(s);
  }

  /** A block that is written and flushed is on its device, where its slice misses one block at most. */
  method WriteFlushed(x: XorDevice, w: nat, data: Block, ghost s: nat, ghost i: nat) returns (ok: bool)
    requires x.Valid() && w < x.blockCount && |data| == x.blockSize && IsCell(x.count, w, s, i)
    modifies x, x.devices, x.slice
    ensures x.Valid() && s < x.slices && i < x.count && i != s % x.count
    ensures x.devices[i].Valid() && s < x.devices[i].blockCount
    ensures ok && x.honest ==> x.devices[i].View(s) in {Some(data), None} && !Lost(x.Columns()[s])
  {
    hide Bdev.View, Bdev.Valid, Lost, Cancels, Even, XorDevice.Columns, XorDevice.Devs, XorDevice.Rows, Grid;
    hide XorDevice.Fits, XorDevice.Sound, XorDevice.Recounted, XorDevice.Turned, Carried, Told, TwoBad, Faithful;
    ghost var es;
    ok, es := x.WriteBlock(w, data);
    if ok { ok, es := x.Flush(); }
    CellFits(x, w, s, i);
    if ok && x.honest { LiesAt(x, w, s, i); }
  }

  // ---- runs

  ghost predicate FitsArray(r: Request, x: XorDevice) {
    match r
    case Read(w) => w < x.blockCount
    case Write(w, data) => w < x.blockCount && |data| == x.blockSize
    case Maintain => true
  }

  ghost function ContentsOf(x: XorDevice): (c: Contents)
    reads x, x.devices
    requires x.Shape()
    ensures |c| == x.blockCount
    ensures forall w :: 0 <= w < x.blockCount ==> c[w] == Some(x.Logical(w))
  {
    ContentsTo(x, x.blockCount)
  }

  ghost function ContentsTo(x: XorDevice, k: nat): (c: Contents)
    reads x, x.devices
    requires x.Shape() && k <= x.blockCount
    ensures |c| == k
    ensures forall w :: 0 <= w < k ==> c[w] == Some(x.Logical(w))
  {
    if k == 0 then [] else ContentsTo(x, k - 1) + [Some(x.Logical(k - 1))]
  }

  /** The array between two requests: its devices, what they show, and what is cached. */
  datatype Snap = Snap(cols: Columns, devs: seq<Dev>, rows: seq<Block>, index: nat, dirty: bool) {
    function Pending(): nat { if dirty then index else NONE }

    /** A slice waits to be written that is no longer cached. */
    predicate Stuck() { dirty && index == NONE }
  }

  ghost function SnapOf(x: XorDevice): (s: Snap)
    reads x, x.devices, x.slice
    requires x.Wired()
    ensures s.cols == x.Columns() && s.devs == x.Devs() && s.rows == x.Rows()
    ensures s.index == x.sliceIndex && s.dirty == x.sliceDirty && s.Pending() == x.Pending()
  {
    Snap(x.Columns(), x.Devs(), x.Rows(), x.sliceIndex, x.sliceDirty)
  }

  /** The columns are what the devices show. */
  ghost predicate Shown(a: Snap) {
    forall t: nat, i: nat :: t < |a.cols| && i < |a.devs| ==>
      |a.cols[t]| == |a.devs| && Has(a.devs[i], t) && a.cols[t][i] == ViewIn(a.devs[i], t)
  }

  lemma SnapShows(x: XorDevice)
    requires x.Wired()
    ensures Shown(SnapOf(x))
  {
    hide Has, ViewIn, XorDevice.Columns, XorDevice.Devs, XorDevice.Rows;
    forall t: nat, i: nat | t < x.slices && i < x.count
      ensures Has(x.Devs()[i], t) && x.Columns()[t][i] == ViewIn(x.Devs()[i], t)
    {
      x.ColumnsOfDevs(t, i);
    }
  }

  ghost predicate NoSliceLost(cols: Columns) { forall t: nat :: t < |cols| ==> !Lost(cols[t]) }

  /** What a request gives the devices to do. */
  ghost function DutyOf(a: Snap, r: Request): Duty {
    if r.Maintain? then Duty(a.index, a.rows, NONE)
    else Duty(a.Pending(), a.rows, if |a.devs| > 1 then SliceOf(|a.devs|, r.w) else NONE)
  }

  /** The slice of the request is not cached and misses two blocks, or two writes of the slice that was
      in the way have failed. */
  ghost predicate Blocked(a: Snap, r: Request, es: seq<Happening>, b: Snap) {
    var d := DutyOf(a, r);
    !r.Maintain? && d.home != a.index && d.home < |b.cols| && (Lost(b.cols[d.home]) || FailedAt(es, d.pend) > 1)
  }

  /** How slices come to be lost and devices to fail: two writes of slice pend fail only where two
      devices may, and on steady devices a slice is lost only by that. */
  ghost predicate Worn(a: Snap, es: seq<Happening>, b: Snap, pend: nat, rel: seq<bool>, steady: bool) {
    && |a.cols| == |b.cols|
    && (forall t: nat :: t < |a.cols| ==> Firm(a.cols[t], b.cols[t], rel))
    && (FailedAt(es, pend) > 1 ==> TwoBad(rel) && (steady ==> pend < |b.cols| && Lost(b.cols[pend])))
    && (steady ==> forall t: nat :: t < |b.cols| && Lost(b.cols[t]) ==>
          Lost(a.cols[t]) || (t == pend && FailedAt(es, pend) > 1))
  }

  /** What a request may do: it is refused exactly when it is blocked, and then, as always, it is
      determined what is cached afterwards and what waits to be written. */
  ghost predicate Genuine(a: Snap, r: Request, out: Option<Block>, es: seq<Happening>, b: Snap, rel: seq<bool>,
                          steady: bool) {
    var d := DutyOf(a, r);
    var stuck := FailedAt(es, d.pend) > 1;
    && Worn(a, es, b, d.pend, rel, steady)
    && (out.None? <==> r.Maintain? || Blocked(a, r, es, b))
    && b.index == (if r.Maintain? then a.index else if out.Some? then d.home else if stuck then a.index else NONE)
    && (!r.Maintain? ==> d.home < |b.cols| <= NONE)
    && b.dirty == (if r.Maintain? then a.dirty && stuck
                   else (r.Write? && out.Some?) || if d.home == a.index then a.dirty else out.None? && stuck)
  }

  lemma TurnGenuine(a: Snap, b: Snap, r: Request, out: Option<Block>, es: seq<Happening>, rel: seq<bool>,
                    honest: bool, steady: bool)
    requires !r.Maintain? && |a.cols| <= NONE
    requires var d := DutyOf(a, r);
      && Turn(a.cols, b.cols, d.pend, b.Pending(), d.home, d.home == a.index, out.Some?, FailedAt(es, d.pend),
              rel, honest, steady)
      && b.index == (if out.Some? then d.home else if FailedAt(es, d.pend) > 1 then a.index else NONE)
      && b.dirty == ((r.Write? && out.Some?)
                     || if d.home == a.index then a.dirty else out.None? && FailedAt(es, d.pend) > 1)
    ensures Genuine(a, r, out, es, b, rel, steady)
  {
    hide Firm, Lost, TwoBad, DutyOf;
  }

  lemma FlushWorn(a: Snap, b: Snap, es: seq<Happening>, rel: seq<bool>, honest: bool, steady: bool)
    requires Carried(a.cols, b.cols, {a.index}, rel, honest, steady) && a.index < |b.cols|
    requires if FailedAt(es, a.index) <= 1 then steady ==> !Lost(b.cols[a.index])
             else TwoBad(rel) && (steady ==> Lost(b.cols[a.index]))
    ensures Worn(a, es, b, a.index, rel, steady)
  {
    hide Firm, Lost, TwoBad;
  }

  lemma NothingGenuine(a: Snap, rel: seq<bool>, steady: bool)
    requires (forall t: nat :: t < |a.cols| ==> |a.cols[t]| == |rel|) && !a.dirty
    ensures Genuine(a, Maintain, None, [], a, rel, steady)
  {
    hide Lost, TwoBad;
  }

  /** The events lead from a to b, and the request gave cause for every write among them. */
  ghost predicate Led(a: Snap, r: Request, es: seq<Happening>, b: Snap) {
    && Shown(a) && Shown(b)
    && Legal(a.devs, es) && b.devs == AfterAll(a.devs, es) && Due(a.devs, es, DutyOf(a, r))
  }

  /** Nothing has come to show but what was last written there. */
  ghost predicate Innocent(a: Snap, es: seq<Happening>) { Legal(a.devs, es) && Good(a.devs, es, |a.cols|) }

  lemma ToldLed(a: Snap, r: Request, es: seq<Happening>, b: Snap, h: bool, h': bool)
    requires Told(a.devs, es, b.devs, h, h', |a.cols|, DutyOf(a, r)) && Shown(a) && Shown(b)
    ensures Led(a, r, es, b) && (h' <==> h && Innocent(a, es))
  {
    hide Legal, Due, Good, AfterAll, Shown, DutyOf;
  }

  lemma RecountedLed(x: XorDevice, a: Snap, r: Request, es: seq<Happening>, h: bool)
    requires x.Wired() && Shown(a) && |a.cols| == x.slices
    requires var d := DutyOf(a, r); x.Recounted(a.devs, es, h, d.pend, d.rows, d.home)
    ensures Led(a, r, es, SnapOf(x)) && (x.honest <==> h && Innocent(a, es))
  {
    hide Told, Shown, Led, Innocent, DutyOf, XorDevice.Columns, XorDevice.Devs, XorDevice.Rows, XorDevice.Wired;
    SnapShows(x);
    ToldLed(a, r, es, SnapOf(x), h, x.honest);
  }

  lemma DutyAt(x: XorDevice, r: Request)
    requires x.Wired() && FitsArray(r, x) && !r.Maintain?
    ensures DutyOf(SnapOf(x), r) == Duty(x.Pending(), x.Rows(), x.Home(r.w))
  {}

  ghost predicate Refused(r: Request, out: Option<Block>) { !r.Maintain? && out.None? }

  /** One request, on whatever devices. It is refused only when it is blocked, and then it changes
      nothing. As long as the events were all innocent a success is that of the plain array. */
  method Serve(x: XorDevice, r: Request, buf: array<byte>) returns (out: Option<Block>, ghost es: seq<Happening>)
    requires x.Valid() && FitsArray(r, x) && buf != x.slice && buf.Length == x.blockSize
    modifies x, x.devices, x.slice, buf
    ensures x.Valid() && Led(old(SnapOf(x)), r, es, SnapOf(x))
    ensures x.honest <==> old(x.honest) && Innocent(old(SnapOf(x)), es)
    ensures x.AllSteady() ==> x.honest == old(x.honest)
    ensures ContentsOf(x) == After(r, out, old(ContentsOf(x)))
    ensures Genuine(old(SnapOf(x)), r, out, es, SnapOf(x), x.Rel(), x.AllSteady())
    ensures x.honest && !Refused(r, out) ==> Exact(r, out, old(ContentsOf(x)))
  {
    hide XorDevice.Columns, XorDevice.Devs, XorDevice.Wired, XorDevice.Recounted;
    hide XorDevice.Reliable, XorDevice.AllSteady, XorDevice.Rows, XorDevice.Sound, XorDevice.Columns, XorDevice.Devs;
    hide ContentsTo, Cancels, Even, Genuine, Led, Innocent, Shown, DutyOf;
    ghost var a, h := SnapOf(x), x.honest;
    SnapShows(x);
    match r {
      case Read(w) =>
        out, es := ServeRead(x, w, buf);
      case Write(w, data) =>
        out, es := ServeWrite(x, w, data);
      case Maintain =>
        out := None;
        es := FlushIfAny(x, a);
    }
    RecountedLed(x, a, r, es, h);
  }

  method ServeRead(x: XorDevice, w: nat, buf: array<byte>) returns (out: Option<Block>, ghost es: seq<Happening>)
    requires x.Valid() && w < x.blockCount && buf != x.slice && buf.Length == x.blockSize
    modifies x, x.devices, x.slice, buf
    ensures x.Valid() && (x.honest ==> old(x.honest)) && (x.AllSteady() ==> x.honest == old(x.honest))
    ensures ContentsOf(x) == old(ContentsOf(x))
    ensures var d := DutyOf(old(SnapOf(x)), Read(w));
      x.Recounted(old(x.Devs()), es, old(x.honest), d.pend, d.rows, d.home)
    ensures Genuine(old(SnapOf(x)), Read(w), out, es, SnapOf(x), x.Rel(), x.AllSteady())
    ensures x.honest && out.Some? ==> Exact(Read(w), out, old(ContentsOf(x)))
  {
    hide XorDevice.Columns, XorDevice.Devs, XorDevice.Fits, XorDevice.Home, XorDevice.Recounted;
    hide XorDevice.Reliable, XorDevice.AllSteady, XorDevice.Rows, XorDevice.Sound;
    hide ContentsTo, LogicalIn, AllShown, Lost, Faithful, Cancels, Even, Grid, SoundIn, Carried, TwoBad, Genuine;
    hide Turn, DutyOf;
    ghost var a := SnapOf(x);
    x.Sizes();
    DutyAt(x, Read(w));
    var ok;
    ok, es := x.ReadBlock(w, buf);
    out := if ok then Some(buf[..]) else None;
    TurnGenuine(a, SnapOf(x), Read(w), out, es, x.Rel(), x.honest, x.AllSteady());
  }

  method ServeWrite(x: XorDevice, w: nat, data: Block) returns (out: Option<Block>, ghost es: seq<Happening>)
    requires x.Valid() && w < x.blockCount && |data| == x.blockSize
    modifies x, x.devices, x.slice
    ensures x.Valid() && (x.honest ==> old(x.honest)) && (x.AllSteady() ==> x.honest == old(x.honest))
    ensures ContentsOf(x) == After(Write(w, data), out, old(ContentsOf(x)))
    ensures var d := DutyOf(old(SnapOf(x)), Write(w, data));
      x.Recounted(old(x.Devs()), es, old(x.honest), d.pend, d.rows, d.home)
    ensures Genuine(old(SnapOf(x)), Write(w, data), out, es, SnapOf(x), x.Rel(), x.AllSteady())
  {
    hide XorDevice.Columns, XorDevice.Devs, XorDevice.Fits, XorDevice.Home, XorDevice.Recounted;
    hide XorDevice.Reliable, XorDevice.AllSteady, XorDevice.Rows, XorDevice.Sound;
    hide ContentsTo, LogicalIn, AllShown, Lost, Faithful, Cancels, Even, Grid, SoundIn, Carried, TwoBad, Genuine;
    hide Turn, DutyOf;
    ghost var a := SnapOf(x);
    x.Sizes();
    DutyAt(x, Write(w, data));
    var ok;
    ok, es := x.WriteBlock(w, data);
    out := if ok then Some(data) else None;
    TurnGenuine(a, SnapOf(x), Write(w, data), out, es, x.Rel(), x.honest, x.AllSteady());
  }

  /** bdev_flush; an array that has nothing cached is left alone. */
  method FlushIfAny(x: XorDevice, ghost a: Snap) returns (ghost es: seq<Happening>)
    requires x.Valid() && a == SnapOf(x)
    modifies x, x.devices
    ensures x.Valid() && x.model == old(x.model) && (x.honest ==> old(x.honest))
    ensures x.AllSteady() ==> x.honest == old(x.honest)
    ensures var d := DutyOf(a, Maintain); x.Recounted(a.devs, es, old(x.honest), d.pend, d.rows, d.home)
    ensures Genuine(a, Maintain, None, es, SnapOf(x), x.Rel(), x.AllSteady())
  {
    hide XorDevice.Columns, XorDevice.Devs, XorDevice.Fits, XorDevice.AllSteady;
    hide Lost, Faithful, Cancels, Even, Grid, SoundIn, Carried, TwoBad, Worn, Told;
    x.Sizes();
    es := [];
    if x.sliceIndex != NONE {
      var ok;
      ok, es := x.Flush();
      FlushWorn(a, SnapOf(x), es, x.Rel(), x.honest, x.AllSteady());
    } else {
      NothingGenuine(a, x.Rel(), x.AllSteady());
      ToldNothing(a.devs, x.honest, x.slices, DutyOf(a, Maintain));
    }
  }

  /** A read, a write or a flush, or the clearing of all caches. */
  datatype Call = Ask(r: Request) | Clear {
    function Request(): Request { if Ask? then r else Maintain }
  }

  function Requests(calls: seq<Call>): (rs: seq<Request>)
    ensures |rs| == |calls|
  {
    seq(|calls|, k requires 0 <= k < |calls| => calls[k].Request())
  }

  /** Clearing the caches writes the cached slice out and drops it, and every cached hash block. A slice
      that could not be written out stays marked as waiting. */
  ghost predicate Cleared(a: Snap, es: seq<Happening>, b: Snap, rel: seq<bool>, steady: bool) {
    && Worn(a, es, b, a.index, rel, steady)
    && b.index == NONE && b.dirty == (a.dirty && FailedAt(es, a.index) > 1) && NoneCached(b.devs, |b.devs|)
  }

  /** What a call can do to what can be seen. */
  ghost predicate CallStep(a: Snap, c: Call, out: Option<Block>, es: seq<Happening>, b: Snap, rel: seq<bool>,
                           steady: bool) {
    match c
    case Ask(r) => Genuine(a, r, out, es, b, rel, steady) && Led(a, r, es, b)
    case Clear => out.None? && if a.index == NONE then b == a && es == []
                               else Cleared(a, es, b, rel, steady) && Led(a, Maintain, es, b)
  }

  method ClearAll(x: XorDevice) returns (ghost es: seq<Happening>)
    requires x.Valid()
    modifies x, x.devices
    ensures x.Shape() && (x.Valid() <==> !SnapOf(x).Stuck()) && ContentsOf(x) == old(ContentsOf(x))
    ensures x.honest <==> old(x.honest) && Innocent(old(SnapOf(x)), es)
    ensures x.AllSteady() ==> x.honest == old(x.honest)
    ensures CallStep(old(SnapOf(x)), Clear, None, es, SnapOf(x), x.Rel(), x.AllSteady())
  {
    hide XorDevice.Columns, XorDevice.Fits, XorDevice.Wired, XorDevice.Rows, XorDevice.Rel;
    hide XorDevice.AllSteady, XorDevice.Sound, XorDevice.Devs, Told, Led, Shown, Innocent, Worn;
    hide ContentsTo, LogicalIn, Lost, Cancels, Even, Grid, Carried, TwoBad, NoneCached;
    x.Sizes();
    SnapShows(x);
    ghost var a, h := SnapOf(x), x.honest;
    es := [];
    if x.sliceIndex == NONE {
      NothingInnocent(a);
      return;
    }
    ghost var flushed;
    flushed, es := x.ClearCaches();
    FlushWorn(a, SnapOf(x), es, x.Rel(), x.honest, x.AllSteady());
    SnapShows(x);
    ToldLed(a, Maintain, es, SnapOf(x), h, x.honest);
  }

  lemma NothingInnocent(a: Snap)
    ensures Innocent(a, [])
  {}

  method ServeCall(x: XorDevice, c: Call, buf: array<byte>) returns (out: Option<Block>, ghost es: seq<Happening>)
    requires x.Valid() && FitsArray(c.Request(), x) && buf != x.slice && buf.Length == x.blockSize
    modifies x, x.devices, x.slice, buf
    ensures x.Shape() && (x.Valid() <==> !SnapOf(x).Stuck())
    ensures CallStep(old(SnapOf(x)), c, out, es, SnapOf(x), x.Rel(), x.AllSteady())
    ensures x.honest <==> old(x.honest) && Innocent(old(SnapOf(x)), es)
    ensures x.AllSteady() ==> x.honest == old(x.honest)
    ensures ContentsOf(x) == After(c.Request(), out, old(ContentsOf(x)))
    ensures x.honest && !Refused(c.Request(), out) ==> Exact(c.Request(), out, old(ContentsOf(x)))
  {
    hide XorDevice.Wired, XorDevice.AllSteady, XorDevice.Rows, XorDevice.Sound, XorDevice.Columns, XorDevice.Devs;
    hide ContentsTo, Cancels, Even, Genuine, Led, Innocent, Cleared, XorDevice.Rel;
    match c
    case Ask(r) =>
      out, es := Serve(x, r, buf);
    case Clear =>
      out := None;
      es := ClearAll(x);
  }

  /** What was seen from call to call, each step being one the call can cause. */
  ghost predicate Trace(trace: seq<Snap>, steps: seq<seq<Happening>>, calls: seq<Call>, outs: seq<Option<Block>>,
                        rel: seq<bool>, steady: bool) {
    && |trace| == |calls| + 1 == |outs| + 1 == |steps| + 1
    && forall k :: 0 <= k < |calls| ==> CallStep(trace[k], calls[k], outs[k], steps[k], trace[k + 1], rel, steady)
  }

  /** All events of the first n calls were innocent. */
  ghost predicate InnocentTo(trace: seq<Snap>, steps: seq<seq<Happening>>, n: nat) {
    n <= |steps| <= |trace| && forall k :: 0 <= k < n ==> Innocent(trace[k], steps[k])
  }

  /** No slice ever missed two blocks. */
  ghost predicate NeverLost(trace: seq<Snap>) { forall k :: 0 <= k < |trace| ==> NoSliceLost(trace[k].cols) }

  /** No request met a slice that misses two blocks, or one in its way that could not be written out. */
  ghost predicate NeverBlocked(trace: seq<Snap>, steps: seq<seq<Happening>>, calls: seq<Call>) {
    && |trace| == |calls| + 1 == |steps| + 1
    && forall k :: 0 <= k < |calls| ==> !Blocked(trace[k], calls[k].Request(), steps[k], trace[k + 1])
  }

  /** Only device f may fail, or miss anything. */
  ghost predicate OnlyBad(cols: Columns, rel: seq<bool>, f: nat) {
    && (forall i :: 0 <= i < |rel| && i != f ==> rel[i])
    && forall t: nat :: t < |cols| ==> Misses(cols[t], |rel|, f)
  }

  ghost predicate Misses(col: Column, n: nat, f: nat) {
    |col| == n && forall i :: 0 <= i < n && i != f ==> col[i].Some?
  }

  lemma StepWorn(a: Snap, c: Call, out: Option<Block>, es: seq<Happening>, b: Snap, rel: seq<bool>, steady: bool)
    requires CallStep(a, c, out, es, b, rel, steady)
    ensures b == a || Worn(a, es, b, DutyOf(a, c.Request()).pend, rel, steady)
  {
    hide Worn, Led, Blocked;
  }

  lemma OnlyBadKept(a: Snap, c: Call, out: Option<Block>, es: seq<Happening>, b: Snap, rel: seq<bool>, steady: bool,
                    f: nat)
    requires OnlyBad(a.cols, rel, f) && CallStep(a, c, out, es, b, rel, steady)
    ensures OnlyBad(b.cols, rel, f)
  {
    hide Lost, TwoBad, CallStep;
    StepWorn(a, c, out, es, b, rel, steady);
    if b != a {
      forall t: nat | t < |b.cols|
        ensures Misses(b.cols[t], |rel|, f)
      {
        assert Misses(a.cols[t], |rel|, f) && Firm(a.cols[t], b.cols[t], rel);
      }
    }
  }

  lemma OnlyBadLosesNone(cols: Columns, rel: seq<bool>, f: nat)
    requires OnlyBad(cols, rel, f)
    ensures NoSliceLost(cols) && !TwoBad(rel)
  {
    forall t: nat | t < |cols|
      ensures !Lost(cols[t])
    {
      assert Misses(cols[t], |rel|, f);
    }
  }

  /** Whatever a single device does, no slice is ever lost. */
  lemma {:induction false} SingleFailure(trace: seq<Snap>, steps: seq<seq<Happening>>, calls: seq<Call>,
                                         outs: seq<Option<Block>>, rel: seq<bool>, steady: bool, f: nat)
    requires Trace(trace, steps, calls, outs, rel, steady) && OnlyBad(trace[0].cols, rel, f)
    ensures NeverLost(trace) && !TwoBad(rel) && OnlyBad(trace[|calls|].cols, rel, f)
    decreases |calls|
  {
    hide CallStep, OnlyBad, NoSliceLost, TwoBad;
    var n := |calls| - 1;
    if n >= 0 {
      SingleFailure(trace[..n + 1], steps[..n], calls[..n], outs[..n], rel, steady, f);
      OnlyBadKept(trace[n], calls[n], outs[n], steps[n], trace[n + 1], rel, steady, f);
      forall k | 0 <= k < |trace| - 1
        ensures NoSliceLost(trace[k].cols)
      {
        assert NoSliceLost(trace[..n + 1][k].cols);
      }
    }
    OnlyBadLosesNone(trace[|calls|].cols, rel, f);
  }

  /** Call k was answered as the plain array does, unless it was refused, provided that all events up to
      it were innocent. */
  ghost predicate Answered(trace: seq<Snap>, steps: seq<seq<Happening>>, rs: seq<Request>, outs: seq<Option<Block>>,
                           st: Contents, k: nat)
    requires k < |rs| == |outs|
  {
    InnocentTo(trace, steps, k + 1) && !Refused(rs[k], outs[k]) ==>
      Exact(rs[k], outs[k], Replay(rs[..k], outs[..k], st))
  }

  ghost predicate AllAnswered(trace: seq<Snap>, steps: seq<seq<Happening>>, rs: seq<Request>, outs: seq<Option<Block>>,
                              st: Contents) {
    |outs| == |rs| && forall k: nat :: k < |rs| ==> Answered(trace, steps, rs, outs, st, k)
  }

  /** Any run of reads, writes, flushes and clearing of caches, on devices that may fail at any point and
      in any way. The trace tells what happened to the devices, and why a request was refused. Up to the
      first event that left a stale block or brought one back, the others are answered as by a plain
      array, and those that are refused leave no trace. The run ends when a slice could not be written
      out before it was dropped, which makes the next call fail an assertion. */
  method ServeAll(x: XorDevice, calls: seq<Call>)
      returns (outs: seq<Option<Block>>, ghost trace: seq<Snap>, ghost steps: seq<seq<Happening>>)
    requires x.Valid() && forall k :: 0 <= k < |calls| ==> FitsArray(calls[k].Request(), x)
    modifies x, x.devices, x.slice
    ensures x.Shape() && |outs| <= |calls| && Trace(trace, steps, calls[..|outs|], outs, x.Rel(), x.AllSteady())
    ensures trace[0] == old(SnapOf(x)) && trace[|outs|] == SnapOf(x)
    ensures (x.Valid() <==> !SnapOf(x).Stuck()) && (|outs| < |calls| ==> SnapOf(x).Stuck())
    ensures ContentsOf(x) == Replay(Requests(calls[..|outs|]), outs, old(ContentsOf(x)))
    ensures old(x.honest) ==> AllAnswered(trace, steps, Requests(calls[..|outs|]), outs, old(ContentsOf(x)))
    ensures x.honest <==> old(x.honest) && InnocentTo(trace, steps, |outs|)
    ensures x.AllSteady() ==> x.honest == old(x.honest)
  {
    hide XorDevice.Fits, XorDevice.Wired, XorDevice.AllSteady, XorDevice.Rel;
    hide XorDevice.Reliable, XorDevice.Sound, XorDevice.Columns, XorDevice.Devs, XorDevice.Rows;
    hide ContentsTo, LogicalIn, Replay, CallStep, Cancels, Even, FitsArray, Told, RunTo;
    ghost var initial, start, h0 := ContentsOf(x), SnapOf(x), x.honest;
    var buf := new byte[x.blockSize](_ => 0);
    outs, trace, steps := [], [start], [];
    NothingRun(start, initial, x.Rel(), h0, x.AllSteady());
    assert calls[..0] == [];
    for k := 0 to |calls|
      invariant x.Valid() && |outs| == k && |trace| == k + 1 && trace[0] == start && trace[k] == SnapOf(x)
      invariant RunTo(trace, steps, calls[..k], outs, initial, ContentsOf(x), x.Rel(), h0, x.honest, x.AllSteady())
    {
      ghost var h, st := x.honest, ContentsOf(x);
      var out;
      ghost var es;
      out, es := ServeCall(x, calls[k], buf);
      RunStep(trace, steps, calls[..k], outs, initial, st, calls[k], out, es, SnapOf(x), x.Rel(), h0, h, x.honest,
              x.AllSteady());
      assert calls[..k + 1] == calls[..k] + [calls[k]];
      outs, trace, steps := outs + [out], trace + [SnapOf(x)], steps + [es];
      if x.sliceDirty && x.sliceIndex == NONE {
        RunIs(trace, steps, calls[..k + 1], outs, initial, ContentsOf(x), x.Rel(), h0, x.honest, x.AllSteady());
        return;
      }
    }
    assert calls[..|calls|] == calls;
    RunIs(trace, steps, calls, outs, initial, ContentsOf(x), x.Rel(), h0, x.honest, x.AllSteady());
  }

  /** All that is known after the calls. */
  ghost predicate RunTo(trace: seq<Snap>, steps: seq<seq<Happening>>, calls: seq<Call>, outs: seq<Option<Block>>,
                        st: Contents, now: Contents, rel: seq<bool>, h0: bool, h: bool, steady: bool) {
    && Trace(trace, steps, calls, outs, rel, steady) && now == Replay(Requests(calls), outs, st)
    && (h0 ==> AllAnswered(trace, steps, Requests(calls), outs, st))
    && (h <==> h0 && InnocentTo(trace, steps, |calls|)) && (steady ==> h == h0)
  }

  lemma NothingRun(a: Snap, st: Contents, rel: seq<bool>, h0: bool, steady: bool)
    ensures RunTo([a], [], [], [], st, st, rel, h0, h0, steady)
  {
    assert Requests([]) == [];
  }

  lemma RunIs(trace: seq<Snap>, steps: seq<seq<Happening>>, calls: seq<Call>, outs: seq<Option<Block>>,
              st: Contents, now: Contents, rel: seq<bool>, h0: bool, h: bool, steady: bool)
    requires RunTo(trace, steps, calls, outs, st, now, rel, h0, h, steady)
    ensures Trace(trace, steps, calls, outs, rel, steady) && now == Replay(Requests(calls), outs, st)
    ensures h0 ==> AllAnswered(trace, steps, Requests(calls), outs, st)
    ensures h <==> h0 && InnocentTo(trace, steps, |calls|)
    ensures steady ==> h == h0
  {}

  lemma RunStep(trace: seq<Snap>, steps: seq<seq<Happening>>, calls: seq<Call>, outs: seq<Option<Block>>,
                st: Contents, now: Contents, c: Call, out: Option<Block>, es: seq<Happening>, b: Snap,
                rel: seq<bool>, h0: bool, h: bool, h': bool, steady: bool)
    requires RunTo(trace, steps, calls, outs, st, now, rel, h0, h, steady) && (steady ==> h' == h)
    requires CallStep(trace[|calls|], c, out, es, b, rel, steady)
    requires h' <==> h && Innocent(trace[|calls|], es)
    requires h' && !Refused(c.Request(), out) ==> Exact(c.Request(), out, now)
    ensures RunTo(trace + [b], steps + [es], calls + [c], outs + [out], st, After(c.Request(), out, now),
                  rel, h0, h', steady)
  {
    hide CallStep, Innocent, Sound, Exact, Replay, AllAnswered, InnocentTo, SoundRun, ExactRun;
    assert Requests(calls + [c]) == Requests(calls) + [c.Request()];
    ReplayStep(Requests(calls), outs, st, c.Request(), out);
    TraceStep(trace, steps, calls, outs, c, out, es, b, rel, steady);
    if h0 { AnsweredStep(trace, steps, Requests(calls), outs, st, c.Request(), out, es, b); }
  }

  lemma TraceStep(trace: seq<Snap>, steps: seq<seq<Happening>>, calls: seq<Call>, outs: seq<Option<Block>>, c: Call,
                  out: Option<Block>, es: seq<Happening>, b: Snap, rel: seq<bool>, steady: bool)
    requires Trace(trace, steps, calls, outs, rel, steady) && CallStep(trace[|calls|], c, out, es, b, rel, steady)
    ensures Trace(trace + [b], steps + [es], calls + [c], outs + [out], rel, steady)
    ensures InnocentTo(trace + [b], steps + [es], |calls| + 1) <==>
      InnocentTo(trace, steps, |calls|) && Innocent(trace[|calls|], es)
  {
    hide CallStep, Innocent;
    var trace', steps' := trace + [b], steps + [es];
    if InnocentTo(trace', steps', |calls| + 1) {
      assert Innocent(trace'[|calls|], steps'[|calls|]);
      forall k | 0 <= k < |calls|
        ensures Innocent(trace[k], steps[k])
      {
        assert Innocent(trace'[k], steps'[k]);
      }
    }
  }

  lemma AnsweredStep(trace: seq<Snap>, steps: seq<seq<Happening>>, rs: seq<Request>, outs: seq<Option<Block>>,
                     st: Contents, r: Request, out: Option<Block>, es: seq<Happening>, b: Snap)
    requires AllAnswered(trace, steps, rs, outs, st) && |steps| == |rs| && |trace| == |rs| + 1
    requires InnocentTo(trace, steps, |rs|) && Innocent(trace[|rs|], es) && !Refused(r, out) ==>
      Exact(r, out, Replay(rs, outs, st))
    ensures AllAnswered(trace + [b], steps + [es], rs + [r], outs + [out], st)
  {
    hide Sound, Exact, Replay, Innocent;
    var trace', steps', rs', outs' := trace + [b], steps + [es], rs + [r], outs + [out];
    forall k: nat | k < |rs'|
      ensures Answered(trace', steps', rs', outs', st, k)
    {
      if k < |rs| {
        assert Answered(trace, steps, rs, outs, st, k);
        assert rs'[..k] == rs[..k] && outs'[..k] == outs[..k];
        SamePrefix(trace, trace', steps, steps', k + 1);
      } else {
        assert rs'[..k] == rs && outs'[..k] == outs;
        SamePrefix(trace, trace', steps, steps', k);
        if InnocentTo(trace', steps', k + 1) { assert Innocent(trace'[k], steps'[k]); }
      }
    }
  }

  lemma SamePrefix(trace: seq<Snap>, trace': seq<Snap>, steps: seq<seq<Happening>>, steps': seq<seq<Happening>>, n: nat)
    requires n <= |steps| <= |steps'| <= |trace'| && |steps| < |trace| <= |trace'|
    requires trace'[..n] == trace[..n] && steps'[..n] == steps[..n]
    ensures InnocentTo(trace', steps', n) <==> InnocentTo(trace, steps, n)
    ensures n < |steps'| && InnocentTo(trace', steps', n + 1) ==> InnocentTo(trace', steps', n)
  {
    hide Innocent;
    assert forall k :: 0 <= k < n ==> trace'[k] == trace'[..n][k] == trace[k];
    assert forall k :: 0 <= k < n ==> steps'[k] == steps'[..n][k] == steps[k];
  }

  /** A request is refused exactly when it is blocked; and nothing is where no slice misses two blocks,
      on steady devices or when no two devices may fail. */
  lemma RefusedExactly(trace: seq<Snap>, steps: seq<seq<Happening>>, calls: seq<Call>, outs: seq<Option<Block>>,
                       rel: seq<bool>, steady: bool, k: nat)
    requires Trace(trace, steps, calls, outs, rel, steady) && k < |calls|
    ensures Refused(calls[k].Request(), outs[k]) <==>
      Blocked(trace[k], calls[k].Request(), steps[k], trace[k + 1])
    ensures NeverLost(trace) && (steady || !TwoBad(rel)) ==>
      !Blocked(trace[k], calls[k].Request(), steps[k], trace[k + 1])
  {
    hide Lost, TwoBad, Led, Firm;
    assert CallStep(trace[k], calls[k], outs[k], steps[k], trace[k + 1], rel, steady);
    if NeverLost(trace) { assert NoSliceLost(trace[k + 1].cols); }
  }

  /** A run of innocent events is one of a plain array. On any devices whatever, it is exact when no
      request is blocked: when each finds its slice missing at most one block, and each slice that was
      written out to make room had at most one failed write. */
  lemma InnocentRun(trace: seq<Snap>, steps: seq<seq<Happening>>, calls: seq<Call>, outs: seq<Option<Block>>,
                    st: Contents, rel: seq<bool>, steady: bool)
    requires Trace(trace, steps, calls, outs, rel, steady) && InnocentTo(trace, steps, |calls|)
    requires AllAnswered(trace, steps, Requests(calls), outs, st)
    ensures SoundRun(Requests(calls), outs, st)
    ensures NeverBlocked(trace, steps, calls) ==> ExactRun(Requests(calls), outs, st)
    ensures NeverLost(trace) && (steady || !TwoBad(rel)) ==> NeverBlocked(trace, steps, calls)
    ensures forall f :: OnlyBad(trace[0].cols, rel, f) ==> NeverBlocked(trace, steps, calls)
  {
    hide CallStep, Innocent, NoSliceLost, TwoBad, Replay, OnlyBad, Blocked;
    var rs := Requests(calls);
    forall k: nat | k < |calls|
      ensures Sound(rs[k], outs[k], Replay(rs[..k], outs[..k], st))
      ensures NeverBlocked(trace, steps, calls) ==> Exact(rs[k], outs[k], Replay(rs[..k], outs[..k], st))
      ensures NeverLost(trace) && (steady || !TwoBad(rel)) ==>
        !Blocked(trace[k], calls[k].Request(), steps[k], trace[k + 1])
    {
      assert Answered(trace, steps, rs, outs, st, k);
      assert InnocentTo(trace, steps, k + 1);
      RefusedExactly(trace, steps, calls, outs, rel, steady, k);
    }
    forall f | OnlyBad(trace[0].cols, rel, f)
      ensures NeverBlocked(trace, steps, calls)
    {
      SingleFailure(trace, steps, calls, outs, rel, steady, f);
    }
  }

  /** Nothing that is not innocent happens to devices whose hash blocks can all be read, as long as
      every write succeeds or loses its data block. */
  lemma {:induction false} TidyRun(trace: seq<Snap>, steps: seq<seq<Happening>>, calls: seq<Call>,
                                   outs: seq<Option<Block>>, rel: seq<bool>, steady: bool)
    requires Trace(trace, steps, calls, outs, rel, steady) && AllClean(trace[0].devs)
    requires forall k :: 0 <= k < |calls| ==> Tidy(steps[k])
    ensures InnocentTo(trace, steps, |calls|) && AllClean(trace[|calls|].devs)
    decreases |calls|
  {
    hide Genuine, Cleared, AllClean, Tidy, Due, Shown, Good, Legal;
    if calls != [] {
      var n := |calls| - 1;
      TidyRun(trace[..n + 1], steps[..n], calls[..n], outs[..n], rel, steady);
      assert CallStep(trace[n], calls[n], outs[n], steps[n], trace[n + 1], rel, steady);
      if steps[n] == [] { NothingInnocent(trace[n]); }
      StepLegal(trace[n], calls[n], outs[n], steps[n], trace[n + 1], rel, steady);
      TidyIsGood(trace[n].devs, steps[n], |trace[n].cols|);
      forall k | 0 <= k < |calls|
        ensures Innocent(trace[k], steps[k])
      {
        if k < n { assert Innocent(trace[..n + 1][k], steps[..n][k]); }
      }
    }
  }

  lemma StepLegal(a: Snap, c: Call, out: Option<Block>, es: seq<Happening>, b: Snap, rel: seq<bool>, steady: bool)
    requires CallStep(a, c, out, es, b, rel, steady)
    ensures Legal(a.devs, es) && b.devs == AfterAll(a.devs, es)
  {
    hide Genuine, Cleared, Due, Shown;
  }

  // ---- silent corruption

  /** Calls of the parity device, and corruption of the base under device i: the data block of slice s
      changes inside a window of four bytes, or the hash block at base block a changes. */
  datatype Event =
    | Called(c: Call)
    | CorruptBase(i: nat, s: nat, data: Block)
    | CorruptHash(i: nat, a: nat, data: Block)
  {
    ghost predicate Possible(x: XorDevice) {
      match this
      case Called(c) => FitsArray(c.Request(), x)
      case CorruptBase(i, s, data) => i < x.count && s < x.slices && |data| == x.blockSize
      case CorruptHash(i, a, data) => i < x.count && |data| == x.blockSize
    }

    function Call(): Call { if Called? then c else Ask(Maintain) }
  }

  /** What the reference does meanwhile: nothing, when something is corrupted. */
  function Calls(events: seq<Event>): (cs: seq<Call>)
    ensures |cs| == |events|
  {
    seq(|events|, k requires 0 <= k < |events| => events[k].Call())
  }

  /** Verified devices whose base never fails, every slice missing at most one block. */
  ghost predicate Intact(x: XorDevice)
    reads x, x.devices, x.slice
  {
    && x.Valid() && x.honest && x.Reliable()
    && (forall i :: 0 <= i < x.count ==> x.devices[i].verified)
    && NoSliceLost(x.Columns())
  }

  predicate AllSome(col: Column) { forall j :: 0 <= j < |col| ==> col[j].Some? }

  /** The blocks of slice s are all readable, and the change of the one on device i stays inside four
      bytes. */
  ghost predicate Corruptible(a: Snap, i: nat, s: nat, data: Block) {
    && i < |a.devs| && s < |a.cols| && |a.cols[s]| == |a.devs|
    && AllSome(a.cols[s]) && Burst(a.cols[s][i].value, data)
  }

  /** Then, and only then, the base changes, and the block becomes unreadable. */
  ghost predicate BaseCorrupted(a: Snap, i: nat, s: nat, data: Block, b: Snap) {
    if Corruptible(a, i, s, data) then
      && a.devs[i].cfg.bs >= 4
      && b.devs == a.devs[i := Corrupted(a.devs[i], DataAddr(a.devs[i].cfg.bs / 4, s), data)]
      && b.cols == a.cols[s := a.cols[s][i := None]]
      && b.rows == a.rows && b.index == a.index && b.dirty == a.dirty
    else
      b == a
  }

  /** Corruption of complete slices only, so that none ever misses two blocks. */
  method TryCorrupt(x: XorDevice, i: nat, s: nat, data: Block)
    requires Intact(x) && i < x.count && s < x.slices && |data| == x.blockSize
    modifies x.devices
    ensures Intact(x) && x.model == old(x.model) && ContentsOf(x) == old(ContentsOf(x))
    ensures BaseCorrupted(old(SnapOf(x)), i, s, data, SnapOf(x))
  {
    hide Bdev.View, Burst, XorDevice.Columns, XorDevice.Devs, XorDevice.Rows, XorDevice.Reliable;
    hide Lost, Faithful, Cancels, Even, Grid, ContentsTo, LogicalIn, DataAddr, HashCount, Crc32, Zeros;
    ghost var a := x.Columns();
    x.DevsAre();
    assert x.Fits(x.devices[i]);
    var col := x.Columns()[s];
    if AllSome(col) && Burst(col[i].value, data) {
      x.CorruptPart(s, i, data);
      GoneFrom(a, x.Columns(), x.model, x.sliceIndex, x.sliceDirty, i);
    }
  }

  /** The hash block at base block a of device i is not cached, and every block whose checksum data
      changes is readable, as is the rest of its slice. */
  predicate Garbleable(x: XorDevice, i: nat, a: nat, data: Block)
    reads x.devices
    requires x.Wired() && i < x.count && |data| == x.blockSize
  {
    var d := x.devices[i];
    assert x.Fits(d);
    && d.verified && a < |d.base| && IsHashAddr(x.blockSize / 4, a) && a != d.whichHashBlock && d.base[a].Some?
    && (forall w: nat :: w < d.blockCount && d.Garbles(a, data, w) ==> d.View(w).Some?)
    && (forall t: nat :: t < x.slices && d.Garbles(a, data, t) ==> AllSome(x.Columns()[t]))
  }

  /** The same of the values. */
  ghost predicate HashCorruptible(a: Snap, i: nat, h: nat, data: Block) {
    && i < |a.devs| && var d := a.devs[i];
    && d.cfg.verified && h < |d.base| && IsHashAddr(d.cfg.bs / 4, h) && h != d.tag && d.base[h].Some?
    && (forall w: nat :: w < d.cfg.blockCount && Garbled(d, h, data, w) ==> ViewIn(d, w).Some?)
    && (forall t: nat :: t < |a.cols| && Garbled(d, h, data, t) ==> AllSome(a.cols[t]))
  }

  lemma SameGuard(x: XorDevice, i: nat, a: nat, data: Block)
    requires x.Wired() && i < x.count && |data| == x.blockSize
    ensures Garbleable(x, i, a, data) <==> HashCorruptible(SnapOf(x), i, a, data)
    ensures x.devices[i].Valid() && x.slices <= x.devices[i].blockCount
    ensures Garbleable(x, i, a, data) ==> forall t: nat :: t < x.slices ==>
      (x.devices[i].Garbles(a, data, t) <==> Garbled(x.Devs()[i], a, data, t))
  {
    hide Bdev.View, ViewIn, Has, XorDevice.Columns, XorDevice.DevsTo, XorDevice.Rows, IsHashAddr, AllSome, GarblesField;
    hide HashCount, Crc32, Zeros;
    var d := x.devices[i];
    assert x.Fits(d);
    x.DevsAre();
    forall w: nat | w < d.blockCount
      ensures d.View(w) == ViewIn(d.St(), w)
    {
      d.HasBlock(w);
    }
  }

  /** Then, and only then, the base changes, and the blocks whose checksums do become unreadable. */
  ghost predicate HashCorrupted(a: Snap, i: nat, h: nat, data: Block, b: Snap) {
    if HashCorruptible(a, i, h, data) then
      && b.devs == a.devs[i := Corrupted(a.devs[i], h, data)] && |b.cols| == |a.cols|
      && (forall t: nat :: t < |a.cols| && i < |a.cols[t]| ==>
            b.cols[t] == if Garbled(a.devs[i], h, data, t) then a.cols[t][i := None] else a.cols[t])
      && b.rows == a.rows && b.index == a.index && b.dirty == a.dirty
    else
      b == a
  }

  method TryCorruptHash(x: XorDevice, i: nat, a: nat, data: Block)
    requires Intact(x) && i < x.count && |data| == x.blockSize
    modifies x.devices
    ensures Intact(x) && x.model == old(x.model) && ContentsOf(x) == old(ContentsOf(x))
    ensures HashCorrupted(old(SnapOf(x)), i, a, data, SnapOf(x))
  {
    hide Garbleable, HashCorruptible, Garbled, XorDevice.Columns, XorDevice.Devs, XorDevice.Rows;
    hide Cancels, Even, Grid, Lost, Faithful, ContentsTo, LogicalIn, XorDevice.Reliable, XorDevice.Sound;
    SameGuard(x, i, a, data);
    if Garbleable(x, i, a, data) { CorruptHashOf(x, i, a, data); }
  }

  method CorruptHashOf(x: XorDevice, i: nat, a: nat, data: Block)
    requires Intact(x) && i < x.count && |data| == x.blockSize && Garbleable(x, i, a, data)
    modifies x.devices[i]
    ensures Intact(x)
    ensures x.model == old(x.model) && ContentsOf(x) == old(ContentsOf(x))
    ensures x.Devs() == old(x.Devs())[i := Corrupted(old(x.Devs())[i], a, data)]
    ensures forall t: nat :: t < x.slices ==>
      x.Columns()[t]
      == if Garbled(old(x.Devs())[i], a, data, t) then old(x.Columns())[t][i := None] else old(x.Columns())[t]
  {
    hide Bdev.View, Bdev.Garbles, XorDevice.Columns, XorDevice.Devs, XorDevice.Rows, XorDevice.Wired;
    hide XorDevice.Reliable, XorDevice.AllSteady, IsHashAddr, Garbled, HashCorruptible;
    hide Lost, Faithful, Cancels, Even, Grid, ContentsTo, LogicalIn, SoundIn, NoSliceLost, AllSome;
    ghost var cols := x.Columns();
    x.Sizes();
    SameGuard(x, i, a, data);
    x.CorruptHashPart(i, a, data);
    GoneFrom(cols, x.Columns(), x.model, x.sliceIndex, x.sliceDirty, i);
  }

  /** Where block i goes from complete slices only, nothing else is affected. */
  lemma GoneFrom(a: Columns, b: Columns, model: seq<seq<Block>>, index: nat, dirty: bool, i: nat)
    requires |a| == |b| && NoSliceLost(a) && SoundIn(a, model, index, dirty)
    requires forall t: nat :: t < |a| ==> b[t] == a[t] || (i < |a[t]| && AllSome(a[t]) && b[t] == a[t][i := None])
    ensures NoSliceLost(b) && SoundIn(b, model, index, dirty)
  {
    forall t: nat | t < |a|
      ensures !Lost(b[t]) && (Faithful(a[t], model[t]) || Lost(a[t]) ==> Faithful(b[t], model[t]))
    {
      if b[t] != a[t] { OneGone(a[t], model[t], i); }
    }
    hide Lost, Faithful;
  }

  lemma OneGone(col: Column, g: seq<Block>, i: nat)
    requires i < |col| && AllSome(col)
    ensures !Lost(col[i := None])
    ensures Faithful(col, g) || Lost(col) ==> Faithful(col[i := None], g)
  {}

  /** What an event does to what can be seen: a call what it can cause, and a corruption takes effect. */
  ghost predicate EventStep(a: Snap, e: Event, out: Option<Block>, es: seq<Happening>, b: Snap, rel: seq<bool>) {
    match e
    case Called(c) => CallStep(a, c, out, es, b, rel, true)
    case CorruptBase(i, s, data) => es == [] && BaseCorrupted(a, i, s, data, b)
    case CorruptHash(i, h, data) => es == [] && HashCorrupted(a, i, h, data, b)
  }

  method ServeEvent(x: XorDevice, e: Event, buf: array<byte>) returns (out: Option<Block>, ghost es: seq<Happening>)
    requires Intact(x) && e.Possible(x) && buf != x.slice && buf.Length == x.blockSize
    modifies x, x.devices, x.slice, buf
    ensures Intact(x) && EventStep(old(SnapOf(x)), e, out, es, SnapOf(x), x.Rel())
    ensures ContentsOf(x) == After(e.Call().Request(), out, old(ContentsOf(x)))
    ensures Exact(e.Call().Request(), out, old(ContentsOf(x)))
  {
    hide XorDevice.Fits, XorDevice.Wired, XorDevice.Reliable, XorDevice.Columns, XorDevice.Rows, XorDevice.Rel;
    hide XorDevice.AllSteady, XorDevice.Sound, XorDevice.Devs, BaseCorrupted, HashCorrupted, CallStep, Innocent;
    hide ContentsTo, LogicalIn, Burst, Cancels, Even, NoSliceLost;
    out, es := None, [];
    x.ReliableAll();
    ghost var a := SnapOf(x);
    match e
    case Called(c) =>
      out, es := ServeCall(x, c, buf);
      StaysWhole(a, c, out, es, SnapOf(x), x.Rel());
    case CorruptBase(i, s, data) =>
      TryCorrupt(x, i, s, data);
    case CorruptHash(i, h, data) =>
      TryCorruptHash(x, i, h, data);
  }

  lemma StaysWhole(a: Snap, c: Call, out: Option<Block>, es: seq<Happening>, b: Snap, rel: seq<bool>)
    requires CallStep(a, c, out, es, b, rel, true) && !TwoBad(rel) && NoSliceLost(a.cols) && !a.Stuck()
    ensures NoSliceLost(b.cols) && !Refused(c.Request(), out) && !b.Stuck()
  {
    hide Lost, TwoBad, Firm, Led, NoneCached;
  }

  /** What was seen from event to event. */
  ghost predicate EventTrace(trace: seq<Snap>, steps: seq<seq<Happening>>, events: seq<Event>, outs: seq<Option<Block>>,
                             rel: seq<bool>) {
    && |trace| == |events| + 1 == |outs| + 1 == |steps| + 1
    && forall k :: 0 <= k < |events| ==> EventStep(trace[k], events[k], outs[k], steps[k], trace[k + 1], rel)
  }

  /** On every run over verified devices, with base blocks corrupted between requests but
      never two in a slice of the array, every read returns what a plain array would. */
  method ServeCorrupted(x: XorDevice, events: seq<Event>)
      returns (outs: seq<Option<Block>>, ghost trace: seq<Snap>, ghost steps: seq<seq<Happening>>)
    requires Intact(x) && forall k :: 0 <= k < |events| ==> events[k].Possible(x)
    modifies x, x.devices, x.slice
    ensures Intact(x) && EventTrace(trace, steps, events, outs, x.Rel())
    ensures trace[0] == old(SnapOf(x)) && trace[|events|] == SnapOf(x)
    ensures ExactRun(Requests(Calls(events)), outs, old(ContentsOf(x)))
    ensures ContentsOf(x) == Replay(Requests(Calls(events)), outs, old(ContentsOf(x)))
  {
    hide XorDevice.Wired, XorDevice.Reliable, XorDevice.Sound, XorDevice.Columns, XorDevice.Devs, XorDevice.Rows;
    hide ContentsTo, LogicalIn, Replay, Exact, Cancels, Even, NoSliceLost, EventStep, EventRun, XorDevice.Rel;
    ghost var initial, start := ContentsOf(x), SnapOf(x);
    var buf := new byte[x.blockSize](_ => 0);
    outs, trace, steps := [], [start], [];
    NoEvents(start, initial, x.Rel());
    assert events[..0] == [];
    for k := 0 to |events|
      invariant Intact(x) && |trace| == k + 1 && trace[0] == start && trace[k] == SnapOf(x)
      invariant EventRun(trace, steps, events[..k], outs, initial, ContentsOf(x), x.Rel())
    {
      ghost var now := ContentsOf(x);
      var out;
      ghost var es;
      out, es := ServeEvent(x, events[k], buf);
      EventRunStep(trace, steps, events[..k], outs, initial, now, events[k], out, es, SnapOf(x), x.Rel());
      assert events[..k + 1] == events[..k] + [events[k]];
      outs, trace, steps := outs + [out], trace + [SnapOf(x)], steps + [es];
    }
    assert events[..|events|] == events;
    EventRunIs(trace, steps, events, outs, initial, ContentsOf(x), x.Rel());
  }

  ghost predicate EventRun(trace: seq<Snap>, steps: seq<seq<Happening>>, events: seq<Event>, outs: seq<Option<Block>>,
                           st: Contents, now: Contents, rel: seq<bool>) {
    && EventTrace(trace, steps, events, outs, rel) && ExactRun(Requests(Calls(events)), outs, st)
    && now == Replay(Requests(Calls(events)), outs, st)
  }

  lemma NoEvents(a: Snap, st: Contents, rel: seq<bool>)
    ensures EventRun([a], [], [], [], st, st, rel)
  {
    NothingYet(st);
    assert Requests(Calls([])) == [];
  }

  lemma EventRunIs(trace: seq<Snap>, steps: seq<seq<Happening>>, events: seq<Event>, outs: seq<Option<Block>>,
                   st: Contents, now: Contents, rel: seq<bool>)
    requires EventRun(trace, steps, events, outs, st, now, rel)
    ensures EventTrace(trace, steps, events, outs, rel) && ExactRun(Requests(Calls(events)), outs, st)
    ensures now == Replay(Requests(Calls(events)), outs, st)
  {}

  lemma EventRunStep(trace: seq<Snap>, steps: seq<seq<Happening>>, events: seq<Event>, outs: seq<Option<Block>>,
                     st: Contents, now: Contents, e: Event, out: Option<Block>, es: seq<Happening>, b: Snap,
                     rel: seq<bool>)
    requires EventRun(trace, steps, events, outs, st, now, rel) && EventStep(trace[|events|], e, out, es, b, rel)
    requires Exact(e.Call().Request(), out, now)
    ensures
      var next := After(e.Call().Request(), out, now);
      EventRun(trace + [b], steps + [es], events + [e], outs + [out], st, next, rel)
  {
    hide EventStep, Exact, Sound, SoundRun, ExactRun, Replay;
    ReplayStep(Requests(Calls(events)), outs, st, e.Call().Request(), out);
    assert Requests(Calls(events + [e])) == Requests(Calls(events)) + [e.Call().Request()];
  }
}
