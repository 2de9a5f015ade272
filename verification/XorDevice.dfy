/** The parity layer: a write-back cache of one slice over devices that may lose blocks. */
module XorLayer {
  import opened Bits
  import opened Crc
  import opened Devices
  import opened Happenings
  import opened Parity
  import opened RowMajor
  import opened VerifyLayout
  import opened XorLayout

  // ---- one slice as its devices show it

  type Column = seq<Option<Block>>

  /** All slices. */
  type Columns = seq<Column>

  /** Whatever is readable is what it should be. */
  ghost predicate Faithful(col: Column, g: seq<Block>) {
    |col| == |g| && forall i :: 0 <= i < |col| && col[i].Some? ==> col[i].value == g[i]
  }

  ghost predicate Lost(col: Column) {
    exists i, j :: 0 <= i < j < |col| && col[i] == None && col[j] == None
  }

  /** Nothing is shown that was not shown before. */
  ghost predicate Weaker(a: Column, b: Column) {
    |a| == |b| && forall i :: 0 <= i < |a| ==> b[i] in {a[i], None}
  }

  /** Slice s has been read from device after device, to the last or to the second block missing. */
  ghost predicate Scanned(es: seq<Happening>, s: nat, col: Column) {
    && Reads(es, s) && |es| <= |col| && (Lost(col) || |es| == |col|)
    && (Lost(col) ==> Lost(col[..|es|]) && !Lost(col[..|es| - 1]))
  }

  /** Then, when one is missing, it is written back as it has been rebuilt. */
  ghost predicate Loaded(es: seq<Happening>, s: nat, col: Column, rows: seq<Block>) {
    if Lost(col) then Scanned(es, s, col)
    else
      && |es| >= |col| == |rows| && Scanned(es[..|col|], s, col)
      && if forall i :: 0 <= i < |col| ==> col[i].Some? then |es| == |col|
         else
           && |es| == |col| + 1
           && exists f :: 0 <= f < |col| && col[f].None? && IsWrite(es[|col|], f, s, rows[f])
  }

  /** The devices that never fail lose nothing. */
  ghost predicate Firm(a: Column, b: Column, rel: seq<bool>) {
    |a| == |b| == |rel| && forall i :: 0 <= i < |a| && rel[i] && a[i].Some? ==> b[i].Some?
  }

  /** From a to b: slices other than those in except show no more than they did, as long as no
      device shows what it should not, and all they did when every device is steady. */
  ghost predicate Carried(a: Columns, b: Columns, except: set<nat>, rel: seq<bool>, honest: bool, steady: bool) {
    && |a| == |b|
    && (forall t: nat :: t < |a| ==> Firm(a[t], b[t], rel))
    && (honest ==> forall t: nat :: t < |a| && t !in except ==> Weaker(a[t], b[t]))
    && (steady ==> forall t: nat :: t < |a| && t !in except ==> b[t] == a[t])
  }

  lemma CarriedOn(a: Columns, b: Columns, c: Columns, e: set<nat>, f: set<nat>, rel: seq<bool>, h: bool, h': bool,
                  steady: bool)
    requires Carried(a, b, e, rel, h, steady) && Carried(b, c, f, rel, h', steady) && (h' ==> h)
    ensures Carried(a, c, e + f, rel, h', steady)
  {
    forall t: nat | t < |a|
      ensures Firm(a[t], c[t], rel)
    {
      assert Firm(a[t], b[t], rel) && Firm(b[t], c[t], rel);
    }
    forall t: nat | t < |a| && t !in e + f
      ensures h' ==> Weaker(a[t], c[t])
    {
      if h' { assert Weaker(a[t], b[t]) && Weaker(b[t], c[t]); }
    }
  }

  lemma CarriedAgain(a: Columns, b: Columns, c: Columns, e: set<nat>, rel: seq<bool>, h: bool, h': bool, steady: bool)
    requires Carried(a, b, e, rel, h, steady) && Carried(b, c, e, rel, h', steady) && (h' ==> h)
    ensures Carried(a, c, e, rel, h', steady)
  {
    CarriedOn(a, b, c, e, e, rel, h, h', steady);
    assert e + e == e;
  }

  lemma CarriedSame(a: Columns, rel: seq<bool>, honest: bool, steady: bool)
    requires forall t: nat :: t < |a| ==> |a[t]| == |rel|
    ensures Carried(a, a, {}, rel, honest, steady)
  {}

  lemma CarriedMore(a: Columns, b: Columns, e: set<nat>, f: set<nat>, rel: seq<bool>, honest: bool, steady: bool)
    requires Carried(a, b, e, rel, honest, steady) && e <= f
    ensures Carried(a, b, f, rel, honest, steady)
  {}

  lemma WeakerKeeps(a: Column, b: Column, g: seq<Block>)
    requires Weaker(a, b)
    ensures Faithful(a, g) ==> Faithful(b, g)
    ensures Lost(a) ==> Lost(b)
  {
    if Lost(a) {
      var i, j :| 0 <= i < j < |a| && a[i] == None && a[j] == None;
      assert b[i] == None && b[j] == None;
    }
  }

  /** Two devices may fail. */
  ghost predicate TwoBad(rel: seq<bool>) {
    exists i, j :: 0 <= i < j < |rel| && !rel[i] && !rel[j]
  }

  /** What one operation may do to the devices: home is the slice it is about, hit whether that one
      was cached, was the slice that was waiting to be written and now the one that is, failed how many
      writes of that slice have failed. It succeeds exactly when its slice is cached, or does not miss
      two blocks and no two writes of the slice that was waiting have failed. */
  ghost predicate Turn(a: Columns, b: Columns, was: nat, now: nat, home: nat, hit: bool, ok: bool, failed: nat,
                       rel: seq<bool>, honest: bool, steady: bool) {
    && Carried(a, b, {home, was}, rel, honest, steady) && home < |b|
    && (ok <==> hit || (!Lost(b[home]) && failed <= 1))
    && (failed > 1 ==> was == now < |b| && TwoBad(rel) && (steady ==> Lost(b[was])))
    && (steady ==> forall t: nat :: t < |b| && Lost(b[t]) ==> Lost(a[t]) || (t == was && failed > 1))
    && (ok && !hit && steady ==> !Lost(a[home]))
  }

  /** What the slices should look like when slice index is cached. */
  ghost predicate SoundIn(cols: Columns, model: seq<seq<Block>>, index: nat, dirty: bool) {
    && |cols| == |model|
    && forall t: nat :: t < |cols| ==>
      if t == index then dirty || Faithful(cols[t], model[t]) else Faithful(cols[t], model[t]) || Lost(cols[t])
  }

  lemma SoundAt(cols: Columns, model: seq<seq<Block>>, index: nat, dirty: bool, t: nat)
    requires SoundIn(cols, model, index, dirty) && t < |cols|
    ensures t == index && !dirty ==> Faithful(cols[t], model[t])
    ensures t != index ==> Faithful(cols[t], model[t]) || Lost(cols[t])
  {}

  lemma SoundDirty(cols: Columns, model: seq<seq<Block>>, index: nat, dirty: bool, g: seq<Block>)
    requires SoundIn(cols, model, index, dirty) && index < |model|
    ensures SoundIn(cols, model[index := g], index, true)
  {
    hide Faithful, Lost;
  }

  lemma RewrittenIs(g: seq<Block>, bs: nat, d: nat, p: nat, from: Block)
    requires Even(g, bs) && |from| == bs && d < |g| && p < |g| && d != p
    ensures Rewritten(g, bs, d, p, from) == g[p := NewParity(g[p], from, g[d])][d := from]
  {}

  lemma CarriedSound(a: Columns, b: Columns, model: seq<seq<Block>>, index: nat, dirty: bool, except: set<nat>,
                     rel: seq<bool>, steady: bool, dirty': bool)
    requires SoundIn(a, model, index, dirty) && Carried(a, b, except, rel, true, steady)
    requires forall t: nat :: t in except && t < |b| ==>
      if t == index then dirty' || Faithful(b[t], model[t]) else Faithful(b[t], model[t]) || Lost(b[t])
    requires index in except || dirty' == dirty
    ensures SoundIn(b, model, index, dirty')
  {
    hide Faithful, Lost;
    forall t: nat | t < |b| && t !in except
      ensures if t == index then dirty' || Faithful(b[t], model[t]) else Faithful(b[t], model[t]) || Lost(b[t])
    {
      WeakerKeeps(a[t], b[t], model[t]);
    }
  }

  /** The first i cells were written with g, cell first without success; the others are as they were. */
  ghost predicate WrittenTo(was: Column, col: Column, g: seq<Block>, i: nat, first: nat, honest: bool) {
    && |col| == |g| == |was| && i <= |g|
    && (forall j :: 0 <= j < i && j != first ==> col[j] == Some(g[j]))
    && (honest ==> forall j :: 0 <= j < i ==> col[j] in {Some(g[j]), None})
    && forall j :: i <= j < |g| ==> col[j] == was[j]
  }

  lemma AllWritten(was: Column, col: Column, g: seq<Block>, first: nat, honest: bool)
    requires WrittenTo(was, col, g, |g|, first, honest)
    ensures (honest ==> Faithful(col, g)) && !Lost(col)
    ensures first >= |g| ==> AllShown(col, g)
  {}

  /** The first i cells were read into got, except that cell failed could not be. */
  ghost predicate ReadTo(col: Column, got: seq<Block>, i: nat, failed: nat) {
    |col| == |got| && i <= |got| && forall j :: 0 <= j < i ==> col[j] == if j == failed then None else Some(got[j])
  }

  lemma AllRead(col: Column, got: seq<Block>, failed: nat)
    requires ReadTo(col, got, |got|, failed)
    ensures !Lost(col)
  {}

  ghost function LogicalIn(m: seq<seq<Block>>, count: nat, w: nat): Block
    requires count > 1 && w < |m| * (count - 1)
    requires forall s :: 0 <= s < |m| ==> |m[s]| == count
  {
    CellInRange(count, |m|, w);
    m[SliceOf(count, w)][DataAt(count, w)]
  }

  /** Rewriting one cell and its parity changes one logical block. */
  lemma OneBlockChanged(m: seq<seq<Block>>, bs: nat, count: nat, which: nat, from: Block, w: nat)
    requires count > 1 && which < |m| * (count - 1) && w < |m| * (count - 1) && |from| == bs
    requires forall s :: 0 <= s < |m| ==> |m[s]| == count && Even(m[s], bs)
    ensures var s := SliceOf(count, which);
      && s < |m| && DataAt(count, which) < count && ParityAt(count, s) < count
      && DataAt(count, which) != ParityAt(count, s)
      && LogicalIn(m[s := Rewritten(m[s], bs, DataAt(count, which), ParityAt(count, s), from)], count, w)
         == if w == which then from else LogicalIn(m, count, w)
  {
    CellInRange(count, |m|, which);
    CellInRange(count, |m|, w);
    hide DataAt, ParityAt, SliceOf;
    if SliceOf(count, w) == SliceOf(count, which) && DataAt(count, w) == DataAt(count, which) {
      CellInjective(count, w, which);
    }
  }

  class XorDevice {
    const devices: seq<Bdev>
    const count: nat
    const blockSize: nat
    const slices: nat
    const blockCount: nat
    const slice: array<byte>
    var sliceIndex: nat
    var sliceDirty: bool
    /** What each slice holds, parity included. */
    ghost var model: seq<seq<Block>>
    /** So far no device has shown a block as anything but what was last written there. */
    ghost var honest: bool

    constructor Open(devices: seq<Bdev>, blockSize: nat, slices: nat, slice: array<byte>,
                     ghost model: seq<seq<Block>>, ghost honest: bool)
      requires |devices| >= 3 && slices <= NONE && slice.Length == |devices| * blockSize
      requires forall i, j :: 0 <= i < j < |devices| ==> devices[i] != devices[j]
      requires forall i :: 0 <= i < |devices| ==>
        devices[i].Valid() && devices[i].blockSize == blockSize && slices <= devices[i].blockCount
      requires |model| == slices
      requires forall s :: 0 <= s < slices ==>
        |model[s]| == |devices| && Even(model[s], blockSize) && Cancels(model[s], blockSize)
      requires honest ==> forall s, i :: 0 <= s < slices && 0 <= i < |devices| ==>
        devices[i].View(s) in {Some(model[s][i]), None}
      ensures Valid() && this.devices == devices && this.slice == slice && this.model == model && this.honest == honest
      ensures sliceIndex == NONE && !sliceDirty
    {
      this.devices, this.blockSize, this.slices, this.slice := devices, blockSize, slices, slice;
      this.model, this.honest := model, honest;
      count := |devices|;
      blockCount := slices * (|devices| - 1);
      sliceIndex, sliceDirty := NONE, false;
      new;
      hide Bdev.View, Bdev.Valid, XorDevice.Columns, XorDevice.Sound, Cancels, Even;
      SoundAtOpen();
    }

    lemma SoundAtOpen()
      requires Shape() && sliceIndex == NONE && !sliceDirty
      requires honest ==> forall s, i :: 0 <= s < slices && 0 <= i < count ==>
        devices[i].View(s) in {Some(model[s][i]), None}
      ensures honest ==> Sound()
    {
      hide Bdev.View, Bdev.Valid, XorDevice.ColumnsTo, Lost, Cancels, Even;
      CellsShow();
    }

    ghost predicate Fits(d: Bdev)
      reads d
    {
      d.Valid() && d.blockSize == blockSize && slices <= d.blockCount
    }

    /** The devices underneath. */
    ghost predicate Wired()
      reads devices
    {
      && count >= 3 && |devices| == count
      && (forall i, j :: 0 <= i < j < count ==> devices[i] != devices[j])
      && (forall i :: 0 <= i < count ==> Fits(devices[i]))
      && blockCount == slices * (count - 1) && slices <= NONE
      && slice.Length == count * blockSize
    }

    ghost predicate Shape()
      reads this, devices
    {
      && Wired()
      && |model| == slices
      && (forall s :: 0 <= s < slices ==>
            |model[s]| == count && Even(model[s], blockSize) && Cancels(model[s], blockSize))
    }

    function ShownTo(s: nat, k: nat): (col: Column)
      reads devices
      requires Wired() && s < slices && k <= count
      ensures |col| == k
      ensures forall i :: 0 <= i < k ==> col[i] == devices[i].View(s)
    {
      if k == 0 then [] else ShownTo(s, k - 1) + [devices[k - 1].View(s)]
    }

    /** What the devices show, slice by slice. */
    function Columns(): (c: Columns)
      reads devices
      requires Wired()
      ensures |c| == slices && forall t: nat :: t < slices ==> |c[t]| == count
    {
      ColumnsTo(slices)
    }

    function ColumnsTo(k: nat): (c: Columns)
      reads devices
      requires Wired() && k <= slices
      ensures |c| == k && forall t: nat :: t < k ==> |c[t]| == count && c[t] == ShownTo(t, count)
    {
      if k == 0 then [] else ColumnsTo(k - 1) + [ShownTo(k - 1, count)]
    }

    lemma CellsShow()
      requires Wired()
      ensures forall t: nat, i: nat :: t < slices && i < count ==> Columns()[t][i] == devices[i].View(t)
    {
      hide Bdev.View, Bdev.Valid;
    }

    /** The devices as values. */
    ghost function Devs(): (ds: seq<Dev>)
      reads devices
      ensures |ds| == |devices|
    {
      DevsTo(|devices|)
    }

    ghost function DevsTo(k: nat): (ds: seq<Dev>)
      reads devices
      requires k <= |devices|
      ensures |ds| == k && forall i :: 0 <= i < k ==> ds[i] == devices[i].St()
    {
      if k == 0 then [] else DevsTo(k - 1) + [devices[k - 1].St()]
    }

    lemma DevsAre()
      ensures forall i: nat :: i < |devices| ==> Devs()[i] == devices[i].St()
    {}

    /** What is seen of the array is what its devices, as values, show. */
    lemma ColumnsOfDevs(t: nat, i: nat)
      requires Wired() && t < slices && i < count
      ensures Has(Devs()[i], t) && Columns()[t][i] == ViewIn(Devs()[i], t)
    {
      hide Bdev.View, Bdev.Valid, Has, ViewIn;
      CellsShow();
      DevsAre();
      assert Fits(devices[i]);
      devices[i].HasBlock(t);
    }

    /** The parts of the buffer. */
    ghost function Rows(): seq<Block>
      reads slice
      requires slice.Length == count * blockSize
    {
      Grid(slice[..], blockSize, count)
    }

    /** What has been done to the devices since they were d0: es, with cause given by the slice that
        was waiting to be written and the one the operation is about. */
    ghost predicate Recounted(d0: seq<Dev>, es: seq<Happening>, h0: bool, pend: nat, rows: seq<Block>, home: nat)
      reads this, devices
    {
      Told(d0, es, Devs(), h0, honest, slices, Duty(pend, rows, home))
    }

    /** Which devices never fail. */
    ghost function Rel(): (rel: seq<bool>)
      ensures |rel| == |devices| && forall i :: 0 <= i < |rel| ==> rel[i] == devices[i].reliable
    {
      seq(|devices|, i requires 0 <= i < |devices| => devices[i].reliable)
    }

    ghost predicate Reliable() { forall d :: d in devices ==> d.reliable }

    ghost predicate AllSteady() { forall d :: d in devices ==> d.Steady() }

    lemma SteadyAt(i: nat)
      requires i < |devices|
      ensures AllSteady() ==> devices[i].Steady()
      ensures Reliable() ==> devices[i].reliable
    {
      hide Bdev.Steady;
    }

    lemma ReliableAll()
      ensures Reliable() ==> AllSteady() && !TwoBad(Rel())
    {}

    /** What the operation that has just ended did to the devices. */
    ghost predicate Turned(a: Columns, was: nat, index: nat, home: nat, ok: bool, es: seq<Happening>)
      reads this, devices
      requires Wired()
    {
      Turn(a, Columns(), was, Pending(), home, home == index, ok, FailedAt(es, was), Rel(), honest, AllSteady())
    }

    /** What has been cached, and what is left to be written. */
    ghost predicate Sound()
      reads this, devices, slice
      requires Shape()
    {
      && (sliceIndex != NONE && sliceIndex < slices ==> Grid(slice[..], blockSize, count) == model[sliceIndex])
      && SoundIn(Columns(), model, sliceIndex, sliceDirty)
    }

    ghost predicate Valid()
      reads this, devices, slice
    {
      && Shape()
      && (sliceDirty ==> sliceIndex != NONE)
      && (sliceIndex != NONE ==> sliceIndex < slices)
      && (honest ==> Sound())
    }

    /** The slice that has changed since it was last written, if any. */
    ghost function Pending(): nat
      reads this
    {
      if sliceDirty then sliceIndex else NONE
    }

    /** The logical contents of block w. */
    ghost function Logical(w: nat): (b: Block)
      reads this, devices
      requires Shape() && w < blockCount
      ensures |b| == blockSize
    {
      CellInRange(count, slices, w);
      LogicalIn(model, count, w)
    }

    /** The slice of block w. */
    ghost function Home(w: nat): (s: nat)
      reads devices
      requires Wired() && w < blockCount
      ensures s < slices && s == SliceOf(count, w)
    {
      CellInRange(count, slices, w);
      SliceOf(count, w)
    }

    /** Writing part to block s of device i, for which there is cause. The array stays honest exactly
        when the write brings no other block back and leaves no stale one in place. */
    method WritePart(s: nat, i: nat, part: Block, ghost duty: Duty) returns (ok: bool, ghost es: seq<Happening>)
      requires Wired() && s < slices && i < count && |part| == blockSize
      requires (s == duty.pend && i < |duty.rows| && part == duty.rows[i]) || (s == duty.home && Columns()[s][i].None?)
      modifies this`honest, devices[i]
      ensures Wired() && Carried(old(Columns()), Columns(), {s}, Rel(), honest, AllSteady())
      ensures Told(old(Devs()), es, Devs(), old(honest), honest, slices, duty)
      ensures FailedAt(es, s) == (if ok then 0 else 1) && FailedOnlyAt(es, s)
      ensures |es| == 1 && IsWrite(es[0], i, s, part)
      ensures forall j :: 0 <= j < count && j != i ==> Columns()[s][j] == old(Columns())[s][j]
      ensures ok ==> Columns()[s][i] == Some(part)
      ensures honest ==> old(honest) && Columns()[s][i] in {Some(part), None}
      ensures devices[i].reliable ==> ok
      ensures devices[i].Steady() ==> honest == old(honest) && (!ok ==> Columns()[s][i] == None)
    {
      hide XorDevice.ShownTo, XorDevice.ColumnsTo, XorDevice.Columns, XorDevice.DevsTo, XorDevice.Devs;
      hide XorDevice.AllSteady, XorDevice.Fits, Bdev.Steady;
      hide PutDone, Told, Carried, Has, ViewIn, GoodAt, AfterWrite;
      ghost var a, devs, h := Columns(), Devs(), honest;
      SteadyAt(i);
      Sizes();
      ColumnsOfDevs(s, i);
      ghost var fault;
      ok, fault := PutPart(s, i, part);
      ghost var e := Wrote(i, s, part, fault);
      PutRecorded(a, Columns(), devs, Devs(), s, i, part, fault, devices[i].Steady(), Rel(), h, AllSteady(), duty);
      es := [e];
      forall t: nat
        ensures FailedAt(es, t) == if t == s && !ok then 1 else 0
      {
        FailedOne(e, t);
      }
      honest := honest && GoodAt(devs, e, slices);
    }

    method PutPart(s: nat, i: nat, part: Block) returns (ok: bool, ghost fault: Fault)
      requires Wired() && s < slices && i < count && |part| == blockSize
      modifies devices[i]
      ensures Wired() && ok == fault.Fine? && (devices[i].reliable ==> ok)
      ensures PutDone(old(Columns()), Columns(), old(Devs()), Devs(), s, i, part, fault, devices[i].Steady(), Rel())
    {
      hide Bdev.View, Bdev.Valid, Bdev.Coherent, Bdev.Separate, Bdev.Erases, Bdev.Steady, Bdev.St;
      hide XorDevice.ShownTo, XorDevice.ColumnsTo, XorDevice.DevsTo, AfterWrite, Has, CanHappen, RevivesIn, StaleIn;
      assert Fits(devices[i]);
      CellsShow();
      DevsAre();
      SteadyIsSeparate(devices[i]);
      ghost var devs, d := Devs(), devices[i].St();
      ok := devices[i].WriteBlock(s, part);
      CellsShow();
      DevsAre();
      fault :| CanHappen(d.cfg, fault) && ok == fault.Fine? && devices[i].St() == AfterWrite(d, s, part, fault);
      assert Devs() == devs[i := AfterWrite(d, s, part, fault)];
    }

    /** Not an operation of the device: the base block under block s of device i changes,
        without notice, inside a window of four bytes. */
    method CorruptPart(s: nat, i: nat, data: Block)
      requires Wired() && s < slices && i < count && |data| == blockSize
      requires devices[i].verified && Columns()[s][i].Some? && Burst(Columns()[s][i].value, data)
      modifies devices[i]
      ensures Wired()
      ensures Columns() == old(Columns())[s := old(Columns())[s][i := None]]
      ensures Devs() == old(Devs())[i := Corrupted(old(Devs())[i], DataAddr(blockSize / 4, s), data)]
    {
      hide Bdev.View, XorDevice.ShownTo, XorDevice.ColumnsTo, XorDevice.DevsTo, Burst, HashCount, DataAddr, Crc32;
      hide Zeros;
      var d := devices[i];
      assert Fits(d);
      ghost var a, devs := Columns(), Devs();
      CellsShow();
      DevsAre();
      DataAddrInRange(d.blockSize / 4, |d.base|, s);
      d.Corrupt(s, data);
      CellsShow();
      DevsAre();
      assert Devs() == devs[i := Corrupted(devs[i], DataAddr(blockSize / 4, s), data)];
      forall t: nat | t < slices
        ensures Columns()[t] == if t == s then a[t][i := None] else a[t]
      {}
    }

    /** Not an operation of the device: the hash block at base block a of device i changes, without
        notice, where it stands for blocks that could be read. */
    method CorruptHashPart(i: nat, a: nat, data: Block)
      requires Wired() && i < count && |data| == blockSize && devices[i].verified
      requires a < |devices[i].base| && IsHashAddr(blockSize / 4, a) && a != devices[i].whichHashBlock
      requires devices[i].base[a].Some?
      requires forall w: nat :: w < devices[i].blockCount && devices[i].Garbles(a, data, w) ==> devices[i].View(w).Some?
      modifies devices[i]
      ensures Wired()
      ensures forall t: nat :: t < slices ==>
        Columns()[t] == if old(devices[i].Garbles(a, data, t)) then old(Columns())[t][i := None] else old(Columns())[t]
      ensures Devs() == old(Devs())[i := Corrupted(old(Devs())[i], a, data)]
    {
      hide Bdev.View, Bdev.Garbles, XorDevice.ShownTo, XorDevice.ColumnsTo, XorDevice.DevsTo, HashCount, Crc32;
      hide Zeros, IsHashAddr;
      assert Fits(devices[i]);
      ghost var before, devs := Columns(), Devs();
      CellsShow();
      DevsAre();
      devices[i].CorruptHash(a, data);
      CellsShow();
      DevsAre();
      assert Devs() == devs[i := Corrupted(devs[i], a, data)];
      forall t: nat | t < slices
        ensures Columns()[t] == if old(devices[i].Garbles(a, data, t)) then before[t][i := None] else before[t]
      {}
    }

    /** Write the parts of the buffer to slice s of all devices, giving up at the second failure. */
    method WriteAll(s: nat, ghost duty: Duty) returns (failed: nat, ghost es: seq<Happening>)
      requires Wired() && s < slices && duty.pend == s && duty.rows == Grid(slice[..], blockSize, count)
      modifies this`honest, devices
      ensures Wired() && (honest ==> old(honest)) && (AllSteady() ==> honest == old(honest))
      ensures Carried(old(Columns()), Columns(), {s}, Rel(), honest, AllSteady())
      ensures Told(old(Devs()), es, Devs(), old(honest), honest, slices, duty)
      ensures failed == FailedAt(es, s) && Swept(es, s, duty.rows)
      ensures failed <= 1 ==>
        (honest ==> Faithful(Columns()[s], Grid(slice[..], blockSize, count))) && !Lost(Columns()[s])
      ensures failed > 1 ==> TwoBad(Rel()) && (AllSteady() ==> Lost(Columns()[s]))
      ensures honest && Faithful(old(Columns())[s], Grid(slice[..], blockSize, count)) ==>
        Faithful(Columns()[s], Grid(slice[..], blockSize, count))
    {
      hide XorDevice.ShownTo, XorDevice.ColumnsTo, XorDevice.Columns, XorDevice.DevsTo, XorDevice.Devs;
      hide XorDevice.Wired, XorDevice.AllSteady, Bdev.Steady;
      hide Faithful, Lost, Carried, Told, Grid, TwoBad, Writing;
      Sizes();
      ghost var g, a, d0, h0 := Grid(slice[..], blockSize, count), Columns(), Devs(), honest;
      ghost var first: nat := count;
      failed, es := 0, [];
      assert es == [];
      WritingStarts(a, d0, h0, s, g, Rel(), AllSteady(), duty);
      for i := 0 to count
        invariant Wired() && failed == FailedAt(es, s) <= 1 && |es| == i && Writes(es, s, g)
        invariant Writing(a, Columns(), d0, es, Devs(), h0, honest, s, g, i, failed, first, Rel(), AllSteady(), duty)
      {
        ghost var before := es;
        var written;
        written, es := WriteNth(s, i, a, d0, es, h0, g, failed, first, duty);
        assert es[..|es| - 1] == before;
        if !written {
          failed := failed + 1;
          if failed > 1 { return; }
          first := i;
        }
      }
      WritingEnds(a, Columns(), d0, es, Devs(), h0, honest, s, g, failed, first, Rel(), AllSteady(), duty);
    }

    /** The next part, and where that leaves the writing of the slice. */
    method WriteNth(s: nat, i: nat, ghost a: Columns, ghost d0: seq<Dev>, ghost es: seq<Happening>, ghost h0: bool,
                    ghost g: seq<Block>, ghost failed: nat, ghost first: nat, ghost duty: Duty)
        returns (written: bool, ghost es': seq<Happening>)
      requires Wired() && s < slices == |a| && i < count && failed <= 1
      requires |es| == i && |g| == count && Writes(es, s, g)
      requires g == Grid(slice[..], blockSize, count) && duty.pend == s && duty.rows == g
      requires Writing(a, Columns(), d0, es, Devs(), h0, honest, s, g, i, failed, first, Rel(), AllSteady(), duty)
      modifies this`honest, devices[i]
      ensures Wired() && Writes(es', s, g) && |es'| == i + 1 && es'[..i] == es
      ensures FailedAt(es', s) == FailedAt(es, s) + if written then 0 else 1
      ensures written || failed == 0 ==> Writing(a, Columns(), d0, es', Devs(), h0, honest, s, g, i + 1,
                                                 if written then failed else 1, if written then first else i,
                                                 Rel(), AllSteady(), duty)
      ensures !written && failed == 1 ==>
        GaveUp(a, Columns(), d0, es', Devs(), h0, honest, s, g, Rel(), AllSteady(), duty)
    {
      hide XorDevice.ShownTo, XorDevice.ColumnsTo, XorDevice.Columns, XorDevice.DevsTo, XorDevice.Devs;
      hide XorDevice.Wired, XorDevice.AllSteady, Bdev.Steady;
      hide Faithful, Lost, Carried, Told, Grid, TwoBad, Writing, GaveUp;
      Sizes();
      RowFits(blockSize, count, i);
      GridRowIs(slice[..], blockSize, count, i);
      SteadyAt(i);
      ghost var b, d, h := Columns(), Devs(), honest;
      ghost var fs;
      written, fs := WritePart(s, i, Row(slice[..], blockSize, i), duty);
      WritingNext(a, b, Columns(), d0, es, d, fs, Devs(), h0, h, honest, s, g, i, failed, first, written,
                  Rel(), AllSteady(), duty);
      WritesOn(es, fs, s, g);
      es' := es + fs;
    }

    /** Write the cached slice to all devices; one failure is tolerated. */
    method FlushSlice(ghost duty: Duty) returns (ok: bool, ghost es: seq<Happening>)
      requires Valid() && sliceIndex != NONE
      requires duty.pend == sliceIndex && duty.rows == Grid(slice[..], blockSize, count)
      modifies this`sliceDirty, this`honest, devices
      ensures Valid() && model == old(model)
      ensures (honest ==> old(honest)) && (AllSteady() ==> honest == old(honest))
      ensures Carried(old(Columns()), Columns(), {sliceIndex}, Rel(), honest, AllSteady())
      ensures Told(old(Devs()), es, Devs(), old(honest), honest, slices, duty)
      ensures (ok <==> FailedAt(es, sliceIndex) <= 1) && Swept(es, sliceIndex, duty.rows)
      ensures ok ==> !sliceDirty && !Lost(Columns()[sliceIndex])
      ensures ok && honest ==> Faithful(Columns()[sliceIndex], model[sliceIndex])
      ensures !ok ==> sliceDirty == old(sliceDirty) && TwoBad(Rel()) && (AllSteady() ==> Lost(Columns()[sliceIndex]))
    {
      hide Told, XorDevice.DevsTo, XorDevice.Devs, XorDevice.Columns, XorDevice.Rel;
      hide XorDevice.ShownTo, XorDevice.ColumnsTo, XorDevice.Wired, XorDevice.AllSteady, XorDevice.Reliable;
      hide Faithful, Lost, Carried, TwoBad, Grid, Cancels, Even, SoundIn;
      ghost var a := Columns();
      if honest { SoundAt(a, model, sliceIndex, sliceDirty, sliceIndex); }
      var failed;
      failed, es := WriteAll(sliceIndex, duty);
      ok := failed <= 1;
      if ok { sliceDirty := false; }
      if honest {
        CarriedSound(a, Columns(), model, sliceIndex, old(sliceDirty), {sliceIndex}, Rel(), AllSteady(), sliceDirty);
      }
    }

    /** Read block s of device i into its part of the buffer. */
    method ReadPart(s: nat, i: nat, ghost duty: Duty) returns (ok: bool, ghost es: seq<Happening>)
      requires Wired() && s < slices && i < count && duty.home == s
      modifies this`honest, devices[i], slice
      ensures Wired() && Columns()[s] == old(Columns())[s]
      ensures Carried(old(Columns()), Columns(), {}, Rel(), honest, AllSteady())
      ensures Told(old(Devs()), es, Devs(), old(honest), honest, slices, duty)
      ensures FailedOnlyAt(es, s) && FailedAt(es, s) == 0 && es == [Fetched(i, s)]
      ensures (honest ==> old(honest)) && (devices[i].Steady() ==> honest == old(honest))
      ensures exists d: Block ::
        |d| == blockSize && Grid(slice[..], blockSize, count) == old(Grid(slice[..], blockSize, count))[i := d]
      ensures Columns()[s][i] == if ok then Some(Grid(slice[..], blockSize, count)[i]) else None
    {
      hide XorDevice.ShownTo, XorDevice.ColumnsTo, XorDevice.Columns, XorDevice.DevsTo, XorDevice.Devs;
      hide XorDevice.AllSteady, XorDevice.Fits, Bdev.Steady;
      hide TouchDone, Told, Carried, Has, GoodAt, LegalAt, Taken, Grid;
      ghost var a, devs, h := Columns(), Devs(), honest;
      SteadyAt(i);
      Sizes();
      ok := FetchPart(s, i);
      ghost var e := Fetched(i, s);
      TouchRecorded(a, Columns(), devs, Devs(), e, devices[i].Steady(), Rel(), h, AllSteady(), duty);
      es := [e];
      forall t: nat
        ensures FailedAt(es, t) == 0
      {
        FailedOne(e, t);
      }
      honest := honest && GoodAt(devs, e, slices);
    }

    method FetchPart(s: nat, i: nat) returns (ok: bool)
      requires Wired() && s < slices && i < count
      modifies devices[i], slice
      ensures Wired() && Columns()[s] == old(Columns())[s]
      ensures TouchDone(old(Columns()), Columns(), old(Devs()), Devs(), Fetched(i, s), devices[i].Steady(), Rel())
      ensures exists d: Block ::
        |d| == blockSize && Grid(slice[..], blockSize, count) == old(Grid(slice[..], blockSize, count))[i := d]
      ensures Columns()[s][i] == if ok then Some(Grid(slice[..], blockSize, count)[i]) else None
    {
      hide Bdev.View, Bdev.Valid, Bdev.Coherent, Bdev.Steady, Bdev.Separate, Bdev.St, AfterRead, Has, ResurfacesIn;
      hide XorDevice.ShownTo, XorDevice.ColumnsTo, XorDevice.DevsTo;
      RowFits(blockSize, count, i);
      assert Fits(devices[i]);
      ghost var before, a, devs := slice[..], Columns(), Devs();
      CellsShow();
      DevsAre();
      SteadyIsSeparate(devices[i]);
      ok := devices[i].ReadBlock(s, slice, i * blockSize);
      CellsShow();
      DevsAre();
      assert Columns()[s] == a[s];
      assert Devs() == devs[i := AfterRead(devs[i], s)];
      GridReplaceRow(before, slice[..], blockSize, count, i);
      assert |Row(slice[..], blockSize, i)| == blockSize;
    }

    /** Read slice s from all devices into the buffer, giving up at the second failure. */
    method ReadAll(s: nat, ghost duty: Duty) returns (ok: bool, failed: nat, ghost es: seq<Happening>)
      requires Wired() && s < slices && duty.home == s
      modifies this`honest, devices, slice
      ensures Wired() && Columns()[s] == old(Columns())[s]
      ensures (honest ==> old(honest)) && (AllSteady() ==> honest == old(honest))
      ensures Carried(old(Columns()), Columns(), {}, Rel(), honest, AllSteady())
      ensures Told(old(Devs()), es, Devs(), old(honest), honest, slices, duty)
      ensures FailedOnlyAt(es, s) && Scanned(es, s, Columns()[s])
      ensures ok == !Lost(Columns()[s])
      ensures ok ==> failed <= count && ReadTo(Columns()[s], Grid(slice[..], blockSize, count), count, failed)
    {
      hide Told, XorDevice.DevsTo, XorDevice.Devs, XorDevice.Columns, XorDevice.Rel;
      hide XorDevice.ShownTo, XorDevice.ColumnsTo, XorDevice.Fits, Faithful, Lost, ReadTo, Grid, Carried;
      hide Bdev.Steady, Bdev.Coherent;
      failed, es := count, [];
      ghost var d0, h0 := Devs(), honest;
      ToldNothing(d0, h0, slices, duty);
      ghost var a := Columns();
      NoneRead(Columns()[s], Grid(slice[..], blockSize, count), failed);
      CarriedSame(a, Rel(), honest, AllSteady());
      for i := 0 to count
        invariant Wired() && Columns()[s] == a[s]
        invariant (honest ==> old(honest)) && (AllSteady() ==> honest == old(honest))
        invariant failed == count || failed < i
        invariant ReadTo(Columns()[s], Grid(slice[..], blockSize, count), i, failed)
        invariant Carried(a, Columns(), {}, Rel(), honest, AllSteady())
        invariant Told(d0, es, Devs(), h0, honest, slices, duty) && FailedOnlyAt(es, s)
        invariant Reads(es, s) && |es| == i
      {
        ghost var col, g, b, dv, h := Columns()[s], Grid(slice[..], blockSize, count), Columns(), Devs(), honest;
        SteadyAt(i);
        var got;
        ghost var fs;
        got, fs := ReadPart(s, i, duty);
        ToldOn(d0, es, dv, fs, Devs(), h0, h, honest, slices, duty);
        FailedOnlyOn(es, fs, s);
        ReadsOn(es, fs, s);
        NoneLostYet(col, g, i, failed);
        es := es + fs;
        CarriedAgain(a, b, Columns(), {}, Rel(), h, honest, AllSteady());
        ghost var d: Block :| Grid(slice[..], blockSize, count) == g[i := d];
        if !got {
          if failed != count {
            FailedIsNone(col, g, i, failed);
            TwoLost(col, failed, i);
            TwoLost(col[..i + 1], failed, i);
            return false, failed, es;
          }
          failed := i;
        }
        NextRead(col, g, i, failed, d);
      }
      AllRead(Columns()[s], Grid(slice[..], blockSize, count), failed);
      ok := true;
    }

    /** Fill part failed of the buffer with the exclusive or of the others. */
    method RebuildSlicePart(failed: nat)
      requires slice.Length == count * blockSize && failed < count
      modifies slice
      ensures var g := old(Grid(slice[..], blockSize, count));
        Grid(slice[..], blockSize, count) == g[failed := XorOthers(g, blockSize, failed)]
    {
      hide Xor, Grid, Mix;
      ghost var g := Grid(slice[..], blockSize, count);
      ghost var rebuilt := XorOthers(g, blockSize, failed);
      MixEnds(rebuilt, g[failed]);
      for i := 0 to blockSize
        invariant Grid(slice[..], blockSize, count) == g[failed := Mix(rebuilt, g[failed], i)]
      {
        MixStep(rebuilt, g[failed], i);
        var b := RebuildByte(i, failed, g, Mix(rebuilt, g[failed], i));
        Set(slice, blockSize, count, failed, i, b);
      }
    }

    method RebuildByte(i: nat, failed: nat, ghost g: seq<Block>, ghost current: Block) returns (b: byte)
      requires slice.Length == count * blockSize && failed < count && i < blockSize
      requires |g| == count && Even(g, blockSize) && |current| == blockSize
      requires Grid(slice[..], blockSize, count) == g[failed := current]
      ensures b == XorOthers(g, blockSize, failed)[i]
    {
      hide Xor, Grid;
      b := 0;
      ghost var now := Grid(slice[..], blockSize, count);
      for j := 0 to count
        invariant b == XorTo(now, i, j, failed)
      {
        if j != failed {
          var x := Get(slice, blockSize, count, j, i);
          b := XorByte(b, x);
        }
      }
      XorToIgnores(g, blockSize, i, count, failed, current);
    }

    /** Load slice s, rebuild the part that could not be read and write it back. */
    method LoadSlice(s: nat, ghost duty: Duty) returns (ok: bool, ghost es: seq<Happening>)
      requires Valid() && duty.home == s && s < slices && sliceIndex == NONE && !sliceDirty
      modifies this`sliceIndex, this`honest, devices, slice
      ensures Valid() && model == old(model)
      ensures (honest ==> old(honest)) && (AllSteady() ==> honest == old(honest))
      ensures Carried(old(Columns()), Columns(), {s}, Rel(), honest, AllSteady())
      ensures Told(old(Devs()), es, Devs(), old(honest), honest, slices, duty)
      ensures FailedOnlyAt(es, s) && Loaded(es, s, old(Columns())[s], Rows())
      ensures ok == !Lost(old(Columns())[s])
      ensures ok ==> sliceIndex == s && !Lost(Columns()[s])
      ensures !ok ==> sliceIndex == NONE && Columns()[s] == old(Columns())[s]
      ensures ok && honest && Reliable() ==> AllShown(Columns()[s], model[s])
    {
      hide Told, XorDevice.DevsTo, XorDevice.Devs, XorDevice.Columns, XorDevice.Rel;
      hide XorDevice.ShownTo, XorDevice.ColumnsTo, XorDevice.Wired, XorDevice.AllSteady, XorDevice.Reliable;
      hide Faithful, Lost, Cancels, Even, Grid, AllShown, Carried, SoundIn;
      Sizes();
      ghost var a, g := Columns(), model[s];
      Uncached();
      if honest { SoundAt(a, model, NONE, false, s); }
      ok, es := FillSlice(s, g, duty);
      if honest { SoundCarried(a, Columns(), model, s, ok, Rel(), AllSteady()); }
      CarriedMore(a, Columns(), if ok then {s} else {}, {s}, Rel(), honest, AllSteady());
      if ok {
        sliceIndex := s;
        Recached(s);
      }
    }

    /** The buffer holds what is on the devices, and g if that is what they should show. */
    method FillSlice(s: nat, ghost g: seq<Block>, ghost duty: Duty) returns (ok: bool, ghost es: seq<Happening>)
      requires Wired() && duty.home == s && s < slices
      requires |g| == count && Even(g, blockSize) && Cancels(g, blockSize)
      modifies this`honest, devices, slice
      ensures Wired() && (honest ==> old(honest)) && (AllSteady() ==> honest == old(honest))
      ensures Carried(old(Columns()), Columns(), if ok then {s} else {}, Rel(), honest, AllSteady())
      ensures Told(old(Devs()), es, Devs(), old(honest), honest, slices, duty)
      ensures FailedOnlyAt(es, s) && Loaded(es, s, old(Columns())[s], Rows())
      ensures ok == !Lost(old(Columns())[s])
      ensures if ok then !Lost(Columns()[s]) else Columns()[s] == old(Columns())[s]
      ensures ok && honest && (Faithful(old(Columns())[s], g) || Lost(old(Columns())[s])) ==>
        && Grid(slice[..], blockSize, count) == g && Faithful(Columns()[s], g)
        && (Reliable() ==> AllShown(Columns()[s], g))
    {
      hide Told, XorDevice.DevsTo, XorDevice.Devs, XorDevice.Columns, XorDevice.Rel;
      hide XorDevice.ShownTo, XorDevice.ColumnsTo, XorDevice.Wired, XorDevice.AllSteady, XorDevice.Reliable;
      hide Faithful, Lost, Cancels, Even, Grid, AllShown, ReadTo, Carried;
      Sizes();
      ghost var a := Columns();
      var whichFailed;
      ghost var d0, h0 := Devs(), honest;
      ok, whichFailed, es := ReadAll(s, duty);
      ghost var b, d, h := Columns(), Devs(), honest;
      if !ok { return; }
      CarriedMore(a, b, {}, {s}, Rel(), h, AllSteady());
      ghost var got := Grid(slice[..], blockSize, count);
      ghost var sound := Faithful(a[s], g) || Lost(a[s]);
      if sound { ReadFaithfully(b[s], got, g, whichFailed); }
      if whichFailed != count {
        ghost var fs := RepairPart(s, whichFailed, g, duty);
        ToldOn(d0, es, d, fs, Devs(), h0, h, honest, slices, duty);
        FailedOnlyOn(es, fs, s);
        LoadedWith(es, fs, s, a[s], got, Rows(), whichFailed);
        es := es + fs;
        CarriedAgain(a, b, Columns(), {s}, Rel(), h, honest, AllSteady());
      } else {
        LoadedWhole(es, s, a[s], got);
        AllRead(Columns()[s], got, whichFailed);
      }
    }

    lemma Recached(s: nat)
      requires Shape() && s < slices && sliceIndex == s
      requires honest ==> SoundIn(Columns(), model, NONE, false) && Faithful(Columns()[s], model[s])
      requires honest ==> Grid(slice[..], blockSize, count) == model[s]
      requires !sliceDirty
      ensures Valid()
    {
      hide XorDevice.ShownTo, XorDevice.ColumnsTo, XorDevice.Fits, Faithful, Lost, Grid, Cancels, Even;
    }

    /** Rebuild the part that could not be read and try to write it back. */
    method RepairPart(s: nat, failed: nat, ghost g: seq<Block>, ghost duty: Duty) returns (ghost es: seq<Happening>)
      requires Wired() && s < slices && failed < count && duty.home == s
      requires ReadTo(Columns()[s], Grid(slice[..], blockSize, count), count, failed)
      requires |g| == count && Even(g, blockSize) && Cancels(g, blockSize)
      modifies this`honest, devices, slice
      ensures Wired() && !Lost(Columns()[s])
      ensures (honest ==> old(honest)) && (AllSteady() ==> honest == old(honest))
      ensures Carried(old(Columns()), Columns(), {s}, Rel(), honest, AllSteady())
      ensures Told(old(Devs()), es, Devs(), old(honest), honest, slices, duty)
      ensures FailedOnlyAt(es, s) && |es| == 1 && IsWrite(es[0], failed, s, Grid(slice[..], blockSize, count)[failed])
      ensures honest && Faithful(old(Columns())[s], g) ==>
        && Grid(slice[..], blockSize, count) == g && Faithful(Columns()[s], g)
        && (Reliable() ==> AllShown(Columns()[s], g))
    {
      hide Told, XorDevice.DevsTo, XorDevice.Devs, XorDevice.Columns, XorDevice.Rel;
      hide XorDevice.ShownTo, XorDevice.ColumnsTo, XorDevice.Fits, XorDevice.AllSteady, XorDevice.Reliable;
      hide Faithful, Lost, Cancels, Grid, AllShown, ReadTo, Carried, Bdev.Steady, Bdev.Coherent, Bdev.Stale;
      hide Bdev.Revives;
      ghost var col, got := Columns()[s], Grid(slice[..], blockSize, count);
      RebuildSlicePart(failed);
      RowFits(blockSize, count, failed);
      GridRowIs(slice[..], blockSize, count, failed);
      SteadyAt(failed);
      FailedIsNone(col, got, count, failed);
      var written;
      written, es := WritePart(s, failed, Row(slice[..], blockSize, failed), duty);
      Repaired(col, Columns()[s], got, failed);
      if honest && Faithful(col, g) {
        FaithfulRead(col, got, g, failed);
        RebuiltPart(got, g, blockSize, failed);
        RepairedFaithfully(col, Columns()[s], got, g, failed);
      }
    }

    /** Make s the cached slice. Fails when s is lost, or when the dirty slice in the way
        cannot be written out, which then stays cached. */
    method SwitchSlice(s: nat) returns (ok: bool, ghost es: seq<Happening>)
      requires Valid() && s < slices
      modifies this`sliceIndex, this`sliceDirty, this`honest, devices, slice
      ensures Valid() && model == old(model)
      ensures (honest ==> old(honest)) && (AllSteady() ==> honest == old(honest))
      ensures Recounted(old(Devs()), es, old(honest), old(Pending()), old(Rows()), s)
      ensures Turned(old(Columns()), old(Pending()), old(sliceIndex), s, ok, es)
      ensures var stuck := FailedAt(es, old(Pending())) > 1;
        && sliceIndex == (if ok then s else if stuck then old(sliceIndex) else NONE)
        && sliceDirty == (if s == old(sliceIndex) then old(sliceDirty) else !ok && stuck)
      ensures ok && s != old(sliceIndex) && honest && Reliable() ==> AllShown(Columns()[s], model[s])
    {
      hide Told, XorDevice.DevsTo, XorDevice.Devs, XorDevice.Columns, XorDevice.Rel;
      hide XorDevice.ShownTo, XorDevice.ColumnsTo, XorDevice.Wired, XorDevice.AllSteady, XorDevice.Reliable;
      hide Faithful, Lost, Grid, Cancels, Even, AllShown, Carried, TwoBad, Turn, SoundIn;
      ghost var a, was, index := Columns(), Pending(), sliceIndex;
      Sizes();
      TurnSame(a, was, s, Rel(), honest, AllSteady());
      ghost var d0, h0, duty := Devs(), honest, Duty(was, Rows(), s);
      ToldNothing(d0, h0, slices, duty);
      if sliceIndex == s { return true, []; }
      CarriedSame(a, Rel(), honest, AllSteady());
      ok, es := SettlePending(duty);
      ghost var b, d, h := Columns(), Devs(), honest;
      if !ok {
        TurnStuck(a, b, was, s, FailedAt(es, was), Rel(), h, AllSteady());
        return;
      }
      Uncached();
      sliceIndex := NONE;
      ghost var fs;
      ok, fs := LoadSlice(s, duty);
      ToldOn(d0, es, d, fs, Devs(), h0, h, honest, slices, duty);
      FailedOn(es, fs, was);
      es := es + fs;
      TurnDone(a, b, Columns(), was, s, ok, FailedAt(es, was), Pending(), Rel(), h, honest, AllSteady());
    }

    /** Writes the cached slice out if it has changed. */
    method SettlePending(ghost duty: Duty) returns (ok: bool, ghost es: seq<Happening>)
      requires Valid() && duty.pend == Pending() && duty.rows == Rows()
      modifies this`sliceDirty, this`honest, devices
      ensures Valid() && model == old(model) && (ok ==> !sliceDirty)
      ensures (honest ==> old(honest)) && (AllSteady() ==> honest == old(honest))
      ensures var touched := if old(sliceDirty) then {sliceIndex} else {};
        Carried(old(Columns()), Columns(), touched, Rel(), honest, AllSteady())
      ensures Told(old(Devs()), es, Devs(), old(honest), honest, slices, duty)
      ensures ok <==> FailedAt(es, old(Pending())) <= 1
      ensures ok && old(sliceDirty) ==> !Lost(Columns()[sliceIndex])
      ensures !ok ==> sliceDirty && old(sliceDirty) && TwoBad(Rel()) && (AllSteady() ==> Lost(Columns()[sliceIndex]))
    {
      hide Told, XorDevice.DevsTo, XorDevice.Devs, XorDevice.Columns, XorDevice.Rel;
      hide XorDevice.ShownTo, XorDevice.ColumnsTo, XorDevice.Wired, XorDevice.AllSteady, XorDevice.Reliable;
      hide Faithful, Lost, Grid, Cancels, Even, Carried, TwoBad, SoundIn;
      ok, es := true, [];
      ToldNothing(Devs(), honest, slices, duty);
      Sizes();
      CarriedSame(Columns(), Rel(), honest, AllSteady());
      if sliceDirty { ok, es := FlushSlice(duty); }
    }

    lemma Sizes()
      requires Wired()
      ensures |Rel()| == count == |devices| && slices <= NONE && slice.Length == count * blockSize
    {}

    /** A clean slice need not be cached. */
    lemma Uncached()
      requires Valid() && !sliceDirty
      ensures honest ==> SoundIn(Columns(), model, NONE, false)
    {
      hide XorDevice.ShownTo, XorDevice.ColumnsTo, XorDevice.Fits, Faithful, Lost, Grid, Cancels, Even;
    }

    /** On success into holds the logical block; the contents of the device never change. */
    method ReadBlock(which: nat, into: array<byte>) returns (ok: bool, ghost es: seq<Happening>)
      requires Valid() && which < blockCount && into != slice && into.Length == blockSize
      modifies this`sliceIndex, this`sliceDirty, this`honest, devices, slice, into
      ensures Valid() && model == old(model)
      ensures (honest ==> old(honest)) && (AllSteady() ==> honest == old(honest))
      ensures Recounted(old(Devs()), es, old(honest), old(Pending()), old(Rows()), Home(which))
      ensures Turned(old(Columns()), old(Pending()), old(sliceIndex), Home(which), ok, es)
      ensures var stuck := FailedAt(es, old(Pending())) > 1;
        && sliceIndex == (if ok then Home(which) else if stuck then old(sliceIndex) else NONE)
        && sliceDirty == (if Home(which) == old(sliceIndex) then old(sliceDirty) else !ok && stuck)
      ensures ok && honest ==> into[..] == Logical(which)
      ensures !ok ==> into[..] == old(into[..])
      ensures ok && honest && Reliable() && Home(which) != old(sliceIndex) ==>
        AllShown(Columns()[Home(which)], model[Home(which)])
    {
      hide Told, XorDevice.DevsTo, XorDevice.Devs, XorDevice.Columns, XorDevice.Rel;
      hide XorDevice.ShownTo, XorDevice.ColumnsTo, XorDevice.Fits, XorDevice.Home, XorDevice.AllSteady;
      hide XorDevice.Reliable;
      hide Cancels, Even, AllShown, DataAt, Grid, SoundIn, XorDevice.Turned;
      CellInRange(count, slices, which);
      var s, dataAt := SliceOf(count, which), DataAt(count, which);
      assert s == Home(which);
      ok, es := SwitchSlice(s);
      if !ok { return; }
      CopyOut(dataAt, into);
    }

    method CopyOut(dataAt: nat, into: array<byte>)
      requires slice.Length == count * blockSize && dataAt < count && into != slice && into.Length == blockSize
      modifies into
      ensures into[..] == Grid(slice[..], blockSize, count)[dataAt]
    {
      RowFits(blockSize, count, dataAt);
      var part := Row(slice[..], blockSize, dataAt);
      PartOf(dataAt, Grid(slice[..], blockSize, count));
      for i := 0 to blockSize
        invariant into[..i] == part[..i]
      {
        into[i] := part[i];
      }
      assert into[..blockSize] == into[..] && part[..blockSize] == part;
    }

    /** parity ^= from ^ data, byte by byte. */
    method AdjustParity(parityAt: nat, dataAt: nat, from: Block)
      requires slice.Length == count * blockSize && parityAt < count && dataAt < count && parityAt != dataAt
      requires |from| == blockSize
      modifies slice
      ensures Grid(slice[..], blockSize, count)
           == var g := old(Grid(slice[..], blockSize, count)); g[parityAt := NewParity(g[parityAt], from, g[dataAt])]
    {
      hide Xor, Grid, Mix;
      ghost var g := Grid(slice[..], blockSize, count);
      ghost var p := NewParity(g[parityAt], from, g[dataAt]);
      MixEnds(p, g[parityAt]);
      for i := 0 to blockSize
        invariant Grid(slice[..], blockSize, count) == g[parityAt := Mix(p, g[parityAt], i)]
      {
        MixStep(p, g[parityAt], i);
        var x := Get(slice, blockSize, count, parityAt, i);
        var y := Get(slice, blockSize, count, dataAt, i);
        Set(slice, blockSize, count, parityAt, i, XorByte(x, XorByte(from[i], y)));
      }
    }

    /** On success exactly one logical block changes, in the cache; on failure none does. */
    method WriteBlock(which: nat, from: Block) returns (ok: bool, ghost es: seq<Happening>)
      requires Valid() && which < blockCount && |from| == blockSize
      modifies this`sliceIndex, this`sliceDirty, this`model, this`honest, devices, slice
      ensures Valid()
      ensures (honest ==> old(honest)) && (AllSteady() ==> honest == old(honest))
      ensures Recounted(old(Devs()), es, old(honest), old(Pending()), old(Rows()), Home(which))
      ensures Turned(old(Columns()), old(Pending()), old(sliceIndex), Home(which), ok, es)
      ensures ok ==> Logical(which) == from && sliceDirty
      ensures var stuck := FailedAt(es, old(Pending())) > 1;
        && sliceIndex == (if ok then Home(which) else if stuck then old(sliceIndex) else NONE)
        && sliceDirty == (ok || if Home(which) == old(sliceIndex) then old(sliceDirty) else stuck)
      ensures forall w :: 0 <= w < blockCount && (w != which || !ok) ==> Logical(w) == old(Logical(w))
    {
      hide Told, XorDevice.DevsTo, XorDevice.Devs, XorDevice.Columns, XorDevice.Rel;
      hide XorDevice.ShownTo, XorDevice.ColumnsTo, XorDevice.Fits, XorDevice.Home, XorDevice.AllSteady;
      hide XorDevice.Reliable;
      hide Cancels, Even, AllShown, DataAt, ParityAt, SliceOf, Grid, LogicalIn, SoundIn, Lost, Carried, TwoBad;
      CellInRange(count, slices, which);
      var s, dataAt := SliceOf(count, which), DataAt(count, which);
      assert s == Home(which);
      var parityAt := ParityAt(count, s);
      ok, es := SwitchSlice(s);
      if !ok { return; }
      ghost var m := model;
      RewriteCached(dataAt, parityAt, from);
      forall w | 0 <= w < blockCount
        ensures Logical(w) == if w == which then from else old(Logical(w))
      {
        OneBlockChanged(m, blockSize, count, which, from, w);
      }
    }

    /** Replace one data part of the cached slice and adjust its parity part. */
    method RewriteCached(dataAt: nat, parityAt: nat, from: Block)
      requires Valid() && sliceIndex != NONE
      requires dataAt < count && parityAt < count && dataAt != parityAt && |from| == blockSize
      modifies this`sliceDirty, this`model, slice
      ensures Valid() && sliceDirty && Columns() == old(Columns())
      ensures model == old(model)[sliceIndex := Rewritten(old(model)[sliceIndex], blockSize, dataAt, parityAt, from)]
    {
      hide XorDevice.ShownTo, XorDevice.ColumnsTo, XorDevice.Wired, SoundIn, Cancels, Even, Rewritten, NewParity, Grid;
      ghost var g := model[sliceIndex];
      Sizes();
      if honest {
        SoundDirty(Columns(), model, sliceIndex, sliceDirty, Rewritten(g, blockSize, dataAt, parityAt, from));
      }
      RewrittenIs(g, blockSize, dataAt, parityAt, from);
      AdjustParity(parityAt, dataAt, from);
      SetRow(slice, blockSize, count, dataAt, from);
      RewrittenCancels(g, blockSize, dataAt, parityAt, from);
      model := model[sliceIndex := Rewritten(g, blockSize, dataAt, parityAt, from)];
      sliceDirty := true;
    }

    /** Write the cached slice out; the source insists that one is cached. */
    method Flush() returns (ok: bool, ghost es: seq<Happening>)
      requires Valid() && sliceIndex != NONE
      modifies this`sliceDirty, this`honest, devices
      ensures Valid() && model == old(model)
      ensures (honest ==> old(honest)) && (AllSteady() ==> honest == old(honest))
      ensures Recounted(old(Devs()), es, old(honest), sliceIndex, Rows(), NONE)
      ensures Carried(old(Columns()), Columns(), {sliceIndex}, Rel(), honest, AllSteady())
      ensures (ok <==> FailedAt(es, sliceIndex) <= 1) && Swept(es, sliceIndex, Rows())
      ensures ok ==> !sliceDirty && !Lost(Columns()[sliceIndex])
      ensures ok && honest ==> Faithful(Columns()[sliceIndex], model[sliceIndex])
      ensures !ok ==> sliceDirty == old(sliceDirty) && TwoBad(Rel()) && (AllSteady() ==> Lost(Columns()[sliceIndex]))
    {
      hide Told, XorDevice.DevsTo, XorDevice.Devs, XorDevice.Columns, XorDevice.Rel;
      hide XorDevice.ShownTo, XorDevice.ColumnsTo, XorDevice.Wired, XorDevice.AllSteady, XorDevice.Reliable;
      hide Faithful, Lost, Grid, Cancels, Even, Carried, TwoBad, SoundIn;
      Sizes();
      ok, es := FlushSlice(Duty(sliceIndex, Rows(), NONE));
    }

    method ClearDevice(i: nat, ghost duty: Duty) returns (ghost es: seq<Happening>)
      requires Wired() && i < count && duty.home == NONE
      modifies this`honest, devices[i]
      ensures Wired() && Carried(old(Columns()), Columns(), {}, Rel(), honest, AllSteady())
      ensures Told(old(Devs()), es, Devs(), old(honest), honest, slices, duty)
      ensures forall t: nat :: FailedAt(es, t) == 0
      ensures (honest ==> old(honest)) && (devices[i].Steady() ==> honest == old(honest))
      ensures Devs() == old(Devs())[i := AfterClear(old(Devs())[i])]
    {
      hide XorDevice.ShownTo, XorDevice.ColumnsTo, XorDevice.Columns, XorDevice.DevsTo, XorDevice.Devs;
      hide XorDevice.AllSteady, XorDevice.Fits, Bdev.Steady;
      hide TouchDone, Told, Carried, GoodAt, LegalAt, AfterClear;
      ghost var a, devs, h := Columns(), Devs(), honest;
      SteadyAt(i);
      Sizes();
      DropPart(i);
      ghost var e := Dropped(i);
      TouchRecorded(a, Columns(), devs, Devs(), e, devices[i].Steady(), Rel(), h, AllSteady(), duty);
      es := [e];
      forall t: nat
        ensures FailedAt(es, t) == 0
      {
        FailedOne(e, t);
      }
      honest := honest && GoodAt(devs, e, slices);
    }

    method DropPart(i: nat)
      requires Wired() && i < count
      modifies devices[i]
      ensures Wired()
      ensures TouchDone(old(Columns()), Columns(), old(Devs()), Devs(), Dropped(i), devices[i].Steady(), Rel())
      ensures Devs() == old(Devs())[i := AfterClear(old(Devs())[i])]
    {
      hide Bdev.View, Bdev.Valid, Bdev.Coherent, Bdev.Steady, Bdev.Separate, Bdev.St, AfterClear, SurfacesIn;
      hide XorDevice.ShownTo, XorDevice.ColumnsTo, XorDevice.DevsTo;
      assert Fits(devices[i]);
      ghost var devs := Devs();
      CellsShow();
      DevsAre();
      SteadyIsSeparate(devices[i]);
      devices[i].ClearCaches();
      CellsShow();
      DevsAre();
      assert Devs() == devs[i := AfterClear(devs[i])];
    }

    method ClearDevices(ghost duty: Duty) returns (ghost es: seq<Happening>)
      requires Wired() && duty.home == NONE
      modifies this`honest, devices
      ensures Wired() && Carried(old(Columns()), Columns(), {}, Rel(), honest, AllSteady())
      ensures Told(old(Devs()), es, Devs(), old(honest), honest, slices, duty)
      ensures forall t: nat :: FailedAt(es, t) == 0
      ensures (honest ==> old(honest)) && (AllSteady() ==> honest == old(honest))
      ensures NoneCached(Devs(), count)
    {
      hide Told, XorDevice.DevsTo, XorDevice.Devs, XorDevice.Columns, XorDevice.Rel, AfterClear, NoneCached;
      hide XorDevice.ShownTo, XorDevice.ColumnsTo, XorDevice.Fits, Carried, Bdev.Steady, Bdev.Coherent;
      ghost var a, d0, h0 := Columns(), Devs(), honest;
      es := [];
      ToldNothing(d0, h0, slices, duty);
      CarriedSame(a, Rel(), honest, AllSteady());
      OneMoreCleared(d0, 0);
      for i := 0 to count
        invariant Wired() && Carried(a, Columns(), {}, Rel(), honest, AllSteady())
        invariant NoneCached(Devs(), i) && forall t: nat :: FailedAt(es, t) == 0
        invariant Told(d0, es, Devs(), h0, honest, slices, duty)
        invariant (honest ==> old(honest)) && (AllSteady() ==> honest == old(honest))
      {
        ghost var b, d, h := Columns(), Devs(), honest;
        SteadyAt(i);
        OneMoreCleared(d, i);
        ghost var fs := ClearDevice(i, duty);
        ToldOn(d0, es, d, fs, Devs(), h0, h, honest, slices, duty);
        forall t: nat
          ensures FailedAt(es + fs, t) == 0
        {
          FailedOn(es, fs, t);
        }
        es := es + fs;
        CarriedAgain(a, b, Columns(), {}, Rel(), h, honest, AllSteady());
      }
    }

    /** Flush, then forget everything cached. The result of the flush is ignored: when two writes of
        a dirty slice fail, sliceDirty is still set, which makes the next switch assert. */
    method ClearCaches() returns (ghost flushed: bool, ghost es: seq<Happening>)
      requires Valid() && sliceIndex != NONE
      modifies this`sliceIndex, this`sliceDirty, this`honest, devices
      ensures Shape() && model == old(model) && sliceIndex == NONE
      ensures (honest ==> old(honest)) && (AllSteady() ==> honest == old(honest))
      ensures Recounted(old(Devs()), es, old(honest), old(sliceIndex), old(Rows()), NONE)
      ensures Carried(old(Columns()), Columns(), {old(sliceIndex)}, Rel(), honest, AllSteady())
      ensures flushed <==> FailedAt(es, old(sliceIndex)) <= 1
      ensures Valid() <==> !sliceDirty
      ensures NoneCached(Devs(), |Devs()|)
      ensures sliceDirty == (old(sliceDirty) && !flushed)
      ensures !flushed ==> TwoBad(Rel()) && (AllSteady() ==> Lost(Columns()[old(sliceIndex)]))
      ensures flushed && AllSteady() ==> !Lost(Columns()[old(sliceIndex)])
    {
      hide Told, XorDevice.DevsTo, XorDevice.Devs, XorDevice.Columns, XorDevice.Rel;
      hide XorDevice.ShownTo, XorDevice.ColumnsTo, XorDevice.Wired, XorDevice.AllSteady, XorDevice.Reliable;
      hide Faithful, Lost, Cancels, Even, Grid, Carried, TwoBad, SoundIn;
      Sizes();
      ghost var a, index := Columns(), sliceIndex;
      ghost var d0, h0, duty := Devs(), honest, Duty(sliceIndex, Rows(), NONE);
      flushed, es := FlushSlice(duty);
      ghost var b, d, h := Columns(), Devs(), honest;
      if !sliceDirty { Uncached(); }
      sliceIndex := NONE;
      ghost var fs := ClearDevices(duty);
      ToldOn(d0, es, d, fs, Devs(), h0, h, honest, slices, duty);
      FailedOn(es, fs, index);
      es := es + fs;
      ClearedOut(a, b, Columns(), index, model, Rel(), h, honest, AllSteady());
    }

    lemma PartOf(i: nat, g: seq<Block>)
      requires slice.Length == count * blockSize && i < count && |g| == count
      requires i * blockSize + blockSize <= slice.Length
      requires Grid(slice[..], blockSize, count) == g
      ensures Row(slice[..], blockSize, i) == g[i]
    {
      assert Grid(slice[..], blockSize, count)[i] == Row(slice[..], blockSize, i);
    }
  }

  /** Every block of the slice can be read. */
  ghost predicate AllShown(col: Column, g: seq<Block>) {
    |col| == |g| && forall i :: 0 <= i < |col| ==> col[i] == Some(g[i])
  }

  lemma ReadFaithfully(col: Column, got: seq<Block>, g: seq<Block>, failed: nat)
    requires |col| == |got| == |g| && failed <= |g| && !Lost(col)
    requires ReadTo(col, got, |g|, failed)
    requires Faithful(col, g) || Lost(col)
    ensures Faithful(col, g)
    ensures forall i :: 0 <= i < |g| && i != failed ==> got[i] == g[i]
    ensures failed == |g| ==> got == g && AllShown(col, g)
    ensures failed < |g| ==> got == g[failed := got[failed]]
  {}

  lemma FaithfulRead(col: Column, got: seq<Block>, g: seq<Block>, failed: nat)
    requires |col| == |got| == |g| && failed < |g| && ReadTo(col, got, |g|, failed) && Faithful(col, g)
    ensures got == g[failed := got[failed]]
  {}

  lemma RebuiltPart(got: seq<Block>, g: seq<Block>, bs: nat, failed: nat)
    requires Even(g, bs) && Cancels(g, bs) && failed < |g| == |got| && Even(got, bs)
    requires got == g[failed := got[failed]]
    ensures got[failed := XorOthers(got, bs, failed)] == g
  {
    OthersIgnore(g, bs, failed, got[failed]);
    OthersRebuild(g, bs, failed);
  }

  lemma RepairedFaithfully(was: Column, col: Column, got: seq<Block>, g: seq<Block>, failed: nat)
    requires failed < |was| == |got| == |g| == |col| && Faithful(was, g)
    requires forall j :: 0 <= j < |col| && j != failed ==> col[j] == was[j]
    requires ReadTo(was, got, |got|, failed) && col[failed] in {Some(g[failed]), None}
    ensures Faithful(col, g)
    ensures col[failed].Some? ==> AllShown(col, g)
  {}

  lemma Repaired(was: Column, col: Column, got: seq<Block>, failed: nat)
    requires failed < |was| == |got| == |col| && ReadTo(was, got, |got|, failed)
    requires forall j :: 0 <= j < |col| && j != failed ==> col[j] == was[j]
    ensures !Lost(col)
  {}

  /** The first n devices have no hash block cached. */
  ghost predicate NoneCached(devs: seq<Dev>, n: nat) {
    n <= |devs| && forall j :: 0 <= j < n && devs[j].cfg.verified ==> devs[j].tag == NONE
  }

  lemma OneMoreCleared(devs: seq<Dev>, i: nat)
    ensures NoneCached(devs, 0)
    ensures i < |devs| && NoneCached(devs, i) ==> NoneCached(devs[i := AfterClear(devs[i])], i + 1)
  {}

  /** All about one write to one device. */
  ghost predicate PutDone(a: Columns, b: Columns, ds: seq<Dev>, ds': seq<Dev>, s: nat, i: nat, part: Block,
                          fault: Fault, steadyHere: bool, rel: seq<bool>) {
    && |a| == |b| && s < |a| && i < |ds| == |rel| && (forall t: nat :: t < |a| ==> |a[t]| == |b[t]| == |ds|)
    && Has(ds[i], s) && CanHappen(ds[i].cfg, fault) && |part| == ds[i].cfg.bs
    && ds' == ds[i := AfterWrite(ds[i], s, part, fault)]
    && (forall t: nat, j: nat :: t < |a| && j < |ds| && j != i ==> b[t][j] == a[t][j])
    && (fault.Fine? ==> b[s][i] == Some(part))
    && (!fault.Fine? ==> (b[s][i] in {Some(part), None} <==> !StaleIn(ds'[i], s, part)))
    && (rel[i] ==> fault.Fine? && steadyHere)
    && (steadyHere && !fault.Fine? ==> b[s][i] == None)
    && (steadyHere ==> forall t: nat :: t < |a| && t != s ==> b[t][i] == a[t][i])
    && forall t: nat :: t < |a| && t != s ==> (b[t][i] in {a[t][i], None} <==> !RevivesIn(ds[i], s, t))
  }

  lemma PutRecorded(a: Columns, b: Columns, ds: seq<Dev>, ds': seq<Dev>, s: nat, i: nat, part: Block, fault: Fault,
                    steadyHere: bool, rel: seq<bool>, h: bool, steady: bool, duty: Duty)
    requires PutDone(a, b, ds, ds', s, i, part, fault, steadyHere, rel) && (steady ==> steadyHere)
    requires LegalAt(ds, Wrote(i, s, part, fault)) ==> DueAt(ds, Wrote(i, s, part, fault), duty)
    ensures LegalAt(ds, Wrote(i, s, part, fault))
    ensures var h' := h && GoodAt(ds, Wrote(i, s, part, fault), |a|);
      && Carried(a, b, {s}, rel, h', steady) && Told(ds, [Wrote(i, s, part, fault)], ds', h, h', |a|, duty)
      && (h' ==> b[s][i] in {Some(part), None}) && (steadyHere ==> h' == h)
    ensures s < |a| && i < |b[s]| == |a[s]| && (fault.Fine? ==> b[s][i] == Some(part))
    ensures steadyHere && !fault.Fine? ==> b[s][i] == None
    ensures forall j :: 0 <= j < |b[s]| && j != i ==> b[s][j] == a[s][j]
  {
    hide Told, RevivesIn, StaleIn, AfterWrite, Has, CanHappen, DueAt;
    var e := Wrote(i, s, part, fault);
    ToldOne(ds, e, h, |a|, duty);
    OneDeviceChanged(a, b, s, i, rel, h && GoodAt(ds, e, |a|), steady);
  }

  /** All about a read from one device, or the clearing of its cache. */
  ghost predicate TouchDone(a: Columns, b: Columns, ds: seq<Dev>, ds': seq<Dev>, e: Happening, steadyHere: bool,
                            rel: seq<bool>) {
    && |a| == |b| && e.i < |ds| == |rel| && (forall t: nat :: t < |a| ==> |a[t]| == |b[t]| == |ds|)
    && !e.Wrote? && LegalAt(ds, e) && ds' == Taken(ds, e)
    && (forall t: nat, j: nat :: t < |a| && j < |ds| && j != e.i ==> b[t][j] == a[t][j])
    && (rel[e.i] ==> steadyHere)
    && (steadyHere ==> forall t: nat :: t < |a| ==> b[t][e.i] == a[t][e.i])
    && forall t: nat :: t < |a| ==> (b[t][e.i] in {a[t][e.i], None} <==>
         !if e.Fetched? then ResurfacesIn(ds[e.i], e.s, t) else SurfacesIn(ds[e.i], t))
  }

  lemma TouchRecorded(a: Columns, b: Columns, ds: seq<Dev>, ds': seq<Dev>, e: Happening, steadyHere: bool,
                      rel: seq<bool>, h: bool, steady: bool, duty: Duty)
    requires TouchDone(a, b, ds, ds', e, steadyHere, rel) && (steady ==> steadyHere)
    requires if e.Fetched? then e.s == duty.home else duty.home == NONE
    ensures LegalAt(ds, e)
    ensures var h' := h && GoodAt(ds, e, |a|);
      && Carried(a, b, {}, rel, h', steady) && Told(ds, [e], ds', h, h', |a|, duty) && (steadyHere ==> h' == h)
  {
    hide Told, ResurfacesIn, SurfacesIn, AfterRead, AfterClear, Has;
    ToldOne(ds, e, h, |a|, duty);
    OneDeviceRead(a, b, e.i, rel, h && GoodAt(ds, e, |a|), steady);
  }

  lemma OneDeviceChanged(a: Columns, b: Columns, s: nat, i: nat, rel: seq<bool>, honest: bool, steady: bool)
    requires |a| == |b| && s < |a| && i < |rel| && forall t: nat :: t < |a| ==> |a[t]| == |b[t]| == |rel|
    requires forall t: nat, j :: t < |a| && 0 <= j < |rel| && j != i ==> b[t][j] == a[t][j]
    requires honest ==> forall t: nat :: t < |a| && t != s ==> b[t][i] in {a[t][i], None}
    requires rel[i] || steady ==> forall t: nat :: t < |a| && t != s ==> b[t][i] == a[t][i]
    requires rel[i] ==> b[s][i].Some?
    ensures Carried(a, b, {s}, rel, honest, steady)
  {
    forall t: nat | t < |a| && t != s
      ensures steady ==> b[t] == a[t]
    {}
  }

  lemma OneDeviceRead(a: Columns, b: Columns, i: nat, rel: seq<bool>, honest: bool, steady: bool)
    requires |a| == |b| && i < |rel| && forall t: nat :: t < |a| ==> |a[t]| == |b[t]| == |rel|
    requires forall t: nat, j :: t < |a| && 0 <= j < |rel| && j != i ==> b[t][j] == a[t][j]
    requires honest ==> forall t: nat :: t < |a| ==> b[t][i] in {a[t][i], None}
    requires rel[i] || steady ==> forall t: nat :: t < |a| ==> b[t][i] == a[t][i]
    ensures Carried(a, b, {}, rel, honest, steady)
  {
    forall t: nat | t < |a|
      ensures steady ==> b[t] == a[t]
    {}
  }

  lemma SteadyIsSeparate(d: Bdev)
    requires d.Valid()
    ensures d.Steady() ==> d.Separate() && d.Coherent()
    ensures d.reliable ==> d.Steady()
  {}

  lemma CarriedSteady(a: Columns, b: Columns, rel: seq<bool>, honest: bool, steady: bool)
    requires Carried(a, b, {}, rel, honest, steady)
    ensures steady ==> a == b
  {}

  /** A slice that was waiting for nothing has been loaded, or not. */
  lemma SoundCarried(a: Columns, b: Columns, model: seq<seq<Block>>, s: nat, ok: bool, rel: seq<bool>, steady: bool)
    requires SoundIn(a, model, NONE, false) && |a| <= NONE && s < |b|
    requires Carried(a, b, if ok then {s} else {}, rel, true, steady)
    requires ok ==> Faithful(b[s], model[s])
    ensures SoundIn(b, model, NONE, false)
  {
    hide Carried, Faithful, Lost;
    CarriedSound(a, b, model, NONE, false, if ok then {s} else {}, rel, steady, false);
  }

  /** The cached slice has been written out, then the caches of the devices were dropped. */
  lemma ClearedOut(a: Columns, b: Columns, c: Columns, index: nat, model: seq<seq<Block>>, rel: seq<bool>,
                   h: bool, h': bool, steady: bool)
    requires Carried(a, b, {index}, rel, h, steady) && Carried(b, c, {}, rel, h', steady) && (h' ==> h)
    ensures Carried(a, c, {index}, rel, h', steady) && (steady ==> b == c)
    ensures h' && SoundIn(b, model, NONE, false) ==> SoundIn(c, model, NONE, false)
  {
    hide SoundIn, Carried;
    CarriedOn(a, b, c, {index}, {}, rel, h, h', steady);
    assert {index} + {} == {index};
    CarriedSteady(b, c, rel, h', steady);
    if h' && SoundIn(b, model, NONE, false) { CarriedSound(b, c, model, NONE, false, {}, rel, steady, false); }
  }

  lemma TurnSame(a: Columns, was: nat, home: nat, rel: seq<bool>, honest: bool, steady: bool)
    requires forall t: nat :: t < |a| ==> |a[t]| == |rel|
    requires home < |a|
    ensures Turn(a, a, was, was, home, true, true, 0, rel, honest, steady)
  {
    CarriedSame(a, rel, honest, steady);
  }

  lemma TurnStuck(a: Columns, b: Columns, was: nat, home: nat, failed: nat, rel: seq<bool>, honest: bool, steady: bool)
    requires home < |b| && failed > 1
    requires Carried(a, b, {was}, rel, honest, steady) && was < |b| && TwoBad(rel) && (steady ==> Lost(b[was]))
    ensures Turn(a, b, was, was, home, false, false, failed, rel, honest, steady)
  {
    CarriedMore(a, b, {was}, {home, was}, rel, honest, steady);
  }

  lemma TurnDone(a: Columns, b: Columns, c: Columns, was: nat, home: nat, ok: bool, failed: nat,
                 now: nat, rel: seq<bool>, h: bool, h': bool, steady: bool)
    requires Carried(a, b, if was < |a| then {was} else {}, rel, h, steady) && Carried(b, c, {home}, rel, h', steady)
    requires (h' ==> h)
    requires home < |c| && home != was && (was < |b| ==> !Lost(b[was]))
    requires ok == !Lost(b[home]) && failed <= 1
    requires if ok then !Lost(c[home]) else c[home] == b[home]
    ensures Turn(a, c, was, now, home, false, ok, failed, rel, h', steady)
  {
    CarriedOn(a, b, c, if was < |a| then {was} else {}, {home}, rel, h, h', steady);
    CarriedMore(a, c, (if was < |a| then {was} else {}) + {home}, {home, was}, rel, h', steady);
  }

  /** The parts up to i have been written, failed of them without success, the last one first. */
  ghost predicate Writing(a: Columns, b: Columns, d0: seq<Dev>, es: seq<Happening>, d: seq<Dev>, h0: bool, h: bool,
                          s: nat, g: seq<Block>, i: nat, failed: nat, first: nat, rel: seq<bool>, steady: bool,
                          duty: Duty) {
    && s < |a| == |b| && |g| == |rel| == |b[s]| && i <= |g| && failed == FailedAt(es, s)
    && (h ==> h0) && (steady ==> h == h0)
    && (if failed == 0 then first == |g|
        else failed == 1 && first < i && !rel[first] && (steady ==> b[s][first] == None))
    && WrittenTo(a[s], b[s], g, i, first, h)
    && Carried(a, b, {s}, rel, h, steady) && Told(d0, es, d, h0, h, |a|, duty)
  }

  /** Two parts could not be written. */
  ghost predicate GaveUp(a: Columns, b: Columns, d0: seq<Dev>, es: seq<Happening>, d: seq<Dev>, h0: bool, h: bool,
                         s: nat, g: seq<Block>, rel: seq<bool>, steady: bool, duty: Duty) {
    && s < |a| == |b| && Carried(a, b, {s}, rel, h, steady) && Told(d0, es, d, h0, h, |a|, duty)
    && (h ==> h0) && (steady ==> h == h0)
    && FailedAt(es, s) == 2 && TwoBad(rel) && (steady ==> Lost(b[s])) && (h && Faithful(a[s], g) ==> Faithful(b[s], g))
  }

  lemma WritingStarts(a: Columns, d0: seq<Dev>, h0: bool, s: nat, g: seq<Block>, rel: seq<bool>, steady: bool,
                      duty: Duty)
    requires s < |a| && |g| == |rel| && forall t: nat :: t < |a| ==> |a[t]| == |rel|
    ensures Writing(a, a, d0, [], d0, h0, h0, s, g, 0, 0, |g|, rel, steady, duty)
  {
    hide Carried, Told, WrittenTo;
    NoneWritten(a[s], g, |g|, h0);
    CarriedSame(a, rel, h0, steady);
    CarriedMore(a, a, {}, {s}, rel, h0, steady);
    ToldNothing(d0, h0, |a|, duty);
  }

  lemma WritingNext(a: Columns, b: Columns, c: Columns, d0: seq<Dev>, es: seq<Happening>, d: seq<Dev>,
                    fs: seq<Happening>, d': seq<Dev>, h0: bool, h: bool, h': bool, s: nat, g: seq<Block>, i: nat,
                    failed: nat, first: nat, written: bool, rel: seq<bool>, steady: bool, duty: Duty)
    requires Writing(a, b, d0, es, d, h0, h, s, g, i, failed, first, rel, steady, duty) && i < |g| && failed <= 1
    requires Carried(b, c, {s}, rel, h', steady) && Told(d, fs, d', h, h', |a|, duty) && (h' ==> h)
    requires steady ==> h' == h
    requires |c| == |a| && |c[s]| == |b[s]| && forall j :: 0 <= j < |c[s]| && j != i ==> c[s][j] == b[s][j]
    requires (written ==> c[s][i] == Some(g[i])) && (h' ==> c[s][i] in {Some(g[i]), None})
    requires (rel[i] ==> written) && (steady && !written ==> c[s][i] == None)
    requires FailedAt(fs, s) == if written then 0 else 1
    ensures written ==> Writing(a, c, d0, es + fs, d', h0, h', s, g, i + 1, failed, first, rel, steady, duty)
    ensures !written && failed == 0 ==> Writing(a, c, d0, es + fs, d', h0, h', s, g, i + 1, 1, i, rel, steady, duty)
    ensures !written && failed == 1 ==> GaveUp(a, c, d0, es + fs, d', h0, h', s, g, rel, steady, duty)
  {
    hide Carried, Told, WrittenTo, Lost, Faithful, TwoBad;
    CarriedAgain(a, b, c, {s}, rel, h, h', steady);
    ToldOn(d0, es, d, fs, d', h0, h, h', |a|, duty);
    FailedOn(es, fs, s);
    if written {
      NextWritten(a[s], b[s], c[s], g, i, first, h, h');
    } else if failed == 0 {
      NextWritten(a[s], b[s], c[s], g, i, i, h, h');
    } else {
      SecondFailed(a[s], b[s], c[s], g, i, first, h, h');
      TwoFailed(rel, first, i);
      if steady { TwoLost(c[s], first, i); }
    }
  }

  lemma WritingEnds(a: Columns, b: Columns, d0: seq<Dev>, es: seq<Happening>, d: seq<Dev>, h0: bool, h: bool, s: nat,
                    g: seq<Block>, failed: nat, first: nat, rel: seq<bool>, steady: bool, duty: Duty)
    requires Writing(a, b, d0, es, d, h0, h, s, g, |g|, failed, first, rel, steady, duty)
    ensures Carried(a, b, {s}, rel, h, steady) && Told(d0, es, d, h0, h, |a|, duty)
    ensures (h ==> h0) && (steady ==> h == h0) && (h ==> Faithful(b[s], g)) && !Lost(b[s]) && failed == FailedAt(es, s)
  {
    hide Carried, Told;
    AllWritten(a[s], b[s], g, first, h);
  }

  lemma NoneWritten(col: Column, g: seq<Block>, first: nat, honest: bool)
    requires |col| == |g|
    ensures WrittenTo(col, col, g, 0, first, honest)
  {}

  lemma NoneRead(col: Column, g: seq<Block>, failed: nat)
    requires |col| == |g|
    ensures ReadTo(col, g, 0, failed)
  {}

  lemma NextWritten(was: Column, col: Column, col': Column, g: seq<Block>, i: nat, first: nat, h: bool, h': bool)
    requires i < |col| == |g| == |col'| && WrittenTo(was, col, g, i, if first < i then first else |g|, h) && (h' ==> h)
    requires forall j :: 0 <= j < |col| && j != i ==> col'[j] == col[j]
    requires i != first ==> col'[i] == Some(g[i])
    requires h' ==> col'[i] in {Some(g[i]), None}
    ensures WrittenTo(was, col', g, i + 1, first, h')
  {}

  /** A second failure: the cells up to i have been tried, the others are as they were. */
  lemma SecondFailed(was: Column, col: Column, col': Column, g: seq<Block>, i: nat, first: nat, h: bool, h': bool)
    requires i < |col| == |g| == |col'| && WrittenTo(was, col, g, i, first, h) && (h' ==> h)
    requires forall j :: 0 <= j < |col| && j != i ==> col'[j] == col[j]
    requires h' ==> col'[i] in {Some(g[i]), None}
    ensures h' && Faithful(was, g) ==> Faithful(col', g)
  {}

  lemma NextRead(col: Column, g: seq<Block>, i: nat, failed: nat, d: Block)
    requires i < |col| == |g| && ReadTo(col, g, i, if failed == i then |g| else failed)
    requires failed >= i ==> failed == i || failed == |g|
    requires col[i] == if failed == i then None else Some(d)
    ensures ReadTo(col, g[i := d], i + 1, failed)
  {}

  lemma LoadedWith(es: seq<Happening>, fs: seq<Happening>, s: nat, col: Column, got: seq<Block>, rows: seq<Block>,
                   failed: nat)
    requires Scanned(es, s, col) && !Lost(col) && ReadTo(col, got, |got|, failed) && failed < |got| == |rows|
    requires |fs| == 1 && IsWrite(fs[0], failed, s, rows[failed])
    ensures Loaded(es + fs, s, col, rows)
  {
    hide Lost, Reads, IsWrite;
    assert (es + fs)[..|col|] == es && (es + fs)[|col|] == fs[0];
    assert col[failed].None?;
  }

  lemma LoadedWhole(es: seq<Happening>, s: nat, col: Column, got: seq<Block>)
    requires Scanned(es, s, col) && !Lost(col) && ReadTo(col, got, |got|, |got|)
    ensures Loaded(es, s, col, got)
  {
    hide Lost, Reads;
    assert es[..|col|] == es;
  }

  lemma NoneLostYet(col: Column, g: seq<Block>, i: nat, failed: nat)
    requires ReadTo(col, g, i, failed)
    ensures i <= |col| && !Lost(col[..i])
  {}

  lemma FailedIsNone(col: Column, g: seq<Block>, i: nat, failed: nat)
    requires ReadTo(col, g, i, failed) && failed < i
    ensures col[failed] == None
  {}

  lemma TwoFailed(rel: seq<bool>, i: nat, j: nat)
    requires i < j < |rel| && !rel[i] && !rel[j]
    ensures TwoBad(rel)
  {}

  lemma TwoLost(col: Column, i: nat, j: nat)
    requires i < j < |col| && col[i] == None && col[j] == None
    ensures Lost(col)
  {}

  lemma GridRowIs(s: seq<byte>, w: nat, rows: nat, k: nat)
    requires Sized(s, w, rows) && k < rows && k * w + w <= |s|
    ensures Grid(s, w, rows)[k] == Row(s, w, k)
  {}
}
