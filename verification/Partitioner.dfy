/** The partitioner's thin allocator. */
module Partitioning {
  import opened Bits
  import opened BitVector
  import ByteAccess
  import opened Crc
  import opened Devices
  import opened Endian
  import opened Parity
  import opened PlainArray
  import opened ThinMap
  import opened VerifyDevice

  /** Every block from start up to, but not including, stop is passed when scanning round. */
  predicate Passed(start: nat, stop: nat, b: nat) {
    if start <= stop then start <= b < stop else b >= start || b < stop
  }

  /** Block b is the first free one from the cursor on, going round. */
  ghost predicate Found(l: Layout, d: Contents, from: nat, b: nat)
    requires SizedDisk(l, d)
  {
    && 1 <= b < l.total && Free(l, d, b)
    && forall c :: 1 <= c < l.total && Passed(from, b, c) ==> !Free(l, d, c)
  }

  /** An entry that was empty has been given the first free block from the cursor on, where the cursor
      now stands; any other has kept its block, and the cursor its place. */
  ghost predicate Placed(l: Layout, d: Contents, d': Contents, i: nat, from: nat, from': nat)
    requires SizedDisk(l, d) && SizedDisk(l, d') && i < l.mapped
  {
    if Entry(l, d, i) == Some(0) then Found(l, d, from, from') && Entry(l, d', i) == Some(from')
    else Entry(l, d', i) == Entry(l, d, i) && from' == from
  }

  class Partition {
    const base: Bdev
    const layout: Layout
    /** Where the open partition starts in the map, and its size. */
    const offset: nat
    const blockCount: nat
    var freeScanFrom: nat
    const bitmapBlock: array<byte>
    var bitmapBlockWhich: nat
    const mapBlock: array<byte>
    var mapBlockWhich: nat

    constructor Open(base: Bdev, layout: Layout, offset: nat, blockCount: nat)
      requires base.Valid() && base.Separate() && layout.bs == base.blockSize && layout.Valid(base.blockCount)
      requires offset + blockCount <= layout.mapped
      ensures Valid() && this.base == base && this.layout == layout && this.offset == offset
      ensures this.blockCount == blockCount
      ensures fresh(bitmapBlock) && fresh(mapBlock)
    {
      this.base, this.layout, this.offset, this.blockCount := base, layout, offset, blockCount;
      freeScanFrom := 1;
      bitmapBlock := new byte[base.blockSize](_ => 0);
      bitmapBlockWhich := 0;
      mapBlock := new byte[base.blockSize](_ => 0);
      mapBlockWhich := 0;
    }

    ghost predicate Wired()
      reads base
    {
      && base.Valid() && base.Separate() && layout.bs == base.blockSize && layout.Valid(base.blockCount)
      && offset + blockCount <= layout.mapped
      && bitmapBlock.Length == mapBlock.Length == layout.bs && bitmapBlock != mapBlock
    }

    ghost function Disk(): (d: Contents)
      reads base
      requires Wired()
      ensures SizedDisk(layout, d) && |d| == base.blockCount
    {
      var d := ContentsOf(base);
      assert forall b :: 0 <= b < |d| && d[b].Some? ==> d[b] == base.View(b);
      d
    }

    /** The cached metadata blocks are what the base holds. */
    ghost predicate Valid()
      reads this, base, bitmapBlock, mapBlock
    {
      && Wired() && 1 <= freeScanFrom < layout.total
      && (bitmapBlockWhich != 0 ==>
            bitmapBlockWhich < layout.MapsStart() && Disk()[bitmapBlockWhich] == Some(bitmapBlock[..]))
      && (mapBlockWhich != 0 ==>
            layout.MapsStart() <= mapBlockWhich < layout.DataStart() && Disk()[mapBlockWhich] == Some(mapBlock[..]))
    }

    method OpenBitmapBlockFor(block: nat) returns (ok: bool)
      requires Valid() && block < layout.total
      modifies this`bitmapBlockWhich, bitmapBlock, base`hashBlock, base`whichHashBlock
      ensures Valid() && Disk() == old(Disk())
      ensures BitmapBlock(layout, block) < |Disk()| && ok == Disk()[BitmapBlock(layout, block)].Some?
      ensures ok ==> bitmapBlockWhich == BitmapBlock(layout, block) && Disk()[bitmapBlockWhich] == Some(bitmapBlock[..])
    {
      hide Bdev.View, Bdev.Valid, BitmapBlock;
      BitmapBlockInRange(layout, block);
      var wanted := BitmapBlock(layout, block);
      if wanted != bitmapBlockWhich {
        bitmapBlockWhich := 0;
        ok := ReadInto(wanted, bitmapBlock);
        if !ok { return; }
        bitmapBlockWhich := wanted;
      }
      ok := true;
    }

    method ReadInto(which: nat, into: array<byte>) returns (ok: bool)
      requires Wired() && which < base.blockCount && into.Length == layout.bs
      modifies into, base`hashBlock, base`whichHashBlock
      ensures Wired() && Disk() == old(Disk())
      ensures ok == Disk()[which].Some?
      ensures ok ==> Disk()[which] == Some(into[..])
    {
      hide Bdev.View, Bdev.Valid;
      ghost var d := Disk();
      ok := base.ReadBlock(which, into, 0);
      assert Disk() == d;
      if ok { assert into[0..layout.bs] == into[..]; }
    }

    method Store(which: nat, from: Block) returns (ok: bool)
      requires Wired() && which < base.blockCount && |from| == layout.bs
      modifies base
      ensures Wired() && (ok ==> Disk() == old(Disk())[which := Some(from)])
      ensures !ok ==> Disk() == old(Disk())[which := None] || (!base.Erases() && Disk() == old(Disk()))
      ensures base.reliable ==> ok
    {
      hide Bdev.View, Bdev.Valid, Bdev.Stale, Bdev.Revives, Bdev.Coherent;
      ghost var d := Disk();
      ok := base.WriteBlock(which, from);
      assert Disk() == d[which := Disk()[which]];
    }

    /** Looks for a free block from the cursor on, once round. Block 0 stands for failure. */
    method ScanFreeBlock() returns (r: nat)
      requires Valid()
      modifies this`freeScanFrom, this`bitmapBlockWhich, bitmapBlock, base`hashBlock, base`whichHashBlock
      ensures Valid() && Disk() == old(Disk())
      ensures r != 0 ==> Found(layout, Disk(), old(freeScanFrom), r) && freeScanFrom == r
      ensures r == 0 && freeScanFrom != old(freeScanFrom) ==>
        BitmapBlock(layout, freeScanFrom) < |Disk()| && Disk()[BitmapBlock(layout, freeScanFrom)].None?
      ensures MetaReadable(layout, Disk()) ==>
        (r == 0 <==> forall b :: 1 <= b < layout.total ==> !Free(layout, Disk(), b))
    {
      hide Bdev.View, Bdev.Valid, BitmapBlock, BitIndex, BitGet, ContentsOf;
      var startScan := freeScanFrom;
      ghost var d := Disk();
      while true
        invariant Valid() && Disk() == d
        invariant forall b :: 1 <= b < layout.total && Passed(startScan, freeScanFrom, b) ==> !Free(layout, d, b)
        decreases (if freeScanFrom >= startScan then layout.total else 0) + startScan - freeScanFrom
      {
        BitmapBlockInRange(layout, freeScanFrom);
        var ok := OpenBitmapBlockFor(freeScanFrom);
        if !ok { return 0; }
        if !BitGet(bitmapBlock[..], BitIndex(layout, freeScanFrom)) { return freeScanFrom; }
        freeScanFrom := freeScanFrom + 1;
        if freeScanFrom >= layout.total { freeScanFrom := 1; }
        if startScan == freeScanFrom { return 0; }
      }
    }

    method MarkBlockAs(which: nat, used: bool) returns (ok: bool)
      requires Valid() && which < layout.total
      modifies this`bitmapBlockWhich, bitmapBlock, base
      ensures Valid()
      ensures BitmapBlock(layout, which) < |Disk()| && (ok ==> old(Disk())[BitmapBlock(layout, which)].Some?)
      ensures ok ==> Disk() == old(Disk())[BitmapBlock(layout, which) :=
        Some(WithBit(old(Disk())[BitmapBlock(layout, which)].value, BitIndex(layout, which), used))]
      ensures !ok ==>
        Disk() == old(Disk())[BitmapBlock(layout, which) := None] || (!base.Erases() && Disk() == old(Disk()))
      ensures base.reliable && old(Disk())[BitmapBlock(layout, which)].Some? ==> ok
    {
      hide Bdev.View, Bdev.Valid, BitmapBlock, BitIndex, WithBit, ContentsOf;
      ghost var d := Disk();
      BitmapBlockInRange(layout, which);
      ok := OpenBitmapBlockFor(which);
      if !ok {
        assert Disk() == d[BitmapBlock(layout, which) := None];
        return;
      }
      var i := BitIndex(layout, which);
      var bl := WithBit(bitmapBlock[..], i, used);
      OneByte(bitmapBlock[..], i, used);
      bitmapBlock[i / 8] := bl[i / 8];
      assert bitmapBlock[..] == bl;
      ok := Store(bitmapBlockWhich, bl);
      if !ok { bitmapBlockWhich := 0; }
    }

    method OpenMapBlockFor(which: nat) returns (ok: bool)
      requires Valid() && which < layout.mapped
      modifies this`mapBlockWhich, mapBlock, base`hashBlock, base`whichHashBlock
      ensures Valid() && Disk() == old(Disk())
      ensures MapBlock(layout, which) < |Disk()| && ok == Disk()[MapBlock(layout, which)].Some?
      ensures ok ==> mapBlockWhich == MapBlock(layout, which) && Disk()[mapBlockWhich] == Some(mapBlock[..])
    {
      hide Bdev.View, Bdev.Valid, MapBlock;
      MapBlockInRange(layout, which);
      var wanted := MapBlock(layout, which);
      if wanted != mapBlockWhich {
        mapBlockWhich := 0;
        ok := ReadInto(wanted, mapBlock);
        if !ok { return; }
        mapBlockWhich := wanted;
      }
      ok := true;
    }

    /** The map's entry; 1, which never is one, stands for failure. */
    method BlockMaploc(which: nat) returns (r: nat)
      requires Valid() && which < layout.mapped
      modifies this`mapBlockWhich, mapBlock, base`hashBlock, base`whichHashBlock
      ensures Valid() && Disk() == old(Disk())
      ensures r == match Entry(layout, Disk(), which) case None => 1 case Some(e) => e
    {
      hide Bdev.View, Bdev.Valid, MapBlock, MapOffset, Unpack, ContentsOf;
      var ok := OpenMapBlockFor(which);
      if !ok { return 1; }
      var o := MapOffset(layout, which);
      r := Unpack(mapBlock[o..o + 8]);
      assert mapBlock[o..o + 8] == mapBlock[..][o..o + 8];
    }

    method BlockSetMaploc(which: nat, to: nat) returns (ok: bool)
      requires Valid() && which < layout.mapped && to <= NONE
      modifies this`mapBlockWhich, mapBlock, base
      ensures Valid()
      ensures MapBlock(layout, which) < |Disk()| && (ok ==> old(Disk())[MapBlock(layout, which)].Some?)
      ensures ok ==> Disk() == old(Disk())[MapBlock(layout, which) :=
        Some(Splice(old(Disk())[MapBlock(layout, which)].value, MapOffset(layout, which), Pack(8, to)))]
      ensures !ok ==>
        Disk() == old(Disk())[MapBlock(layout, which) := None] || (!base.Erases() && Disk() == old(Disk()))
      ensures base.reliable && old(Disk())[MapBlock(layout, which)].Some? ==> ok
    {
      hide Bdev.View, Bdev.Valid, MapBlock, MapOffset, Pack, ContentsOf;
      ghost var d := Disk();
      MapBlockInRange(layout, which);
      ok := OpenMapBlockFor(which);
      if !ok {
        assert Disk() == d[MapBlock(layout, which) := None];
        return;
      }
      PackBe64(to, mapBlock, MapOffset(layout, which));
      ok := Store(mapBlockWhich, mapBlock[..]);
      if !ok { mapBlockWhich := 0; }
    }

    /** An entry that is 0 was never written. */
    method ReadBlock(which: nat, into: array<byte>) returns (ok: bool)
      requires Valid() && Disjoint(layout, Disk()) && which < blockCount
      requires into.Length == layout.bs && into != bitmapBlock && into != mapBlock
      modifies this`mapBlockWhich, mapBlock, base`hashBlock, base`whichHashBlock, into
      ensures Valid() && Disk() == old(Disk())
      ensures ok == ThinView(layout, Disk(), offset + which).Some?
      ensures ok ==> ThinView(layout, Disk(), offset + which) == Some(into[..])
    {
      hide Bdev.View, Bdev.Valid, ContentsOf, Entry, Free, Zeros;
      var maploc := BlockMaploc(which + offset);
      assert InArea(layout, Entry(layout, Disk(), offset + which));
      if maploc == 1 { return false; }
      if maploc == 0 {
        Clear(into);
        return true;
      }
      ok := ReadInto(maploc, into);
    }

    method Clear(into: array<byte>)
      modifies into
      ensures into[..] == Zeros(into.Length)
    {
      for i := 0 to into.Length
        invariant forall j :: 0 <= j < i ==> into[j] == 0
      {
        into[i] := 0;
      }
    }

    /** Whatever fails, every other block of every partition shows what it showed or nothing, and
        no data block is in use twice. Unless the bitmap write has failed and left the old bitmap,
        none in use is marked free either. When nothing fails, exactly one block changes, and the
        write is refused only when it needs a block and none is free. */
    method WriteBlock(which: nat, from: Block) returns (ok: bool)
      requires Valid() && Sane(layout, Disk()) && which < blockCount && |from| == layout.bs
      modifies this, bitmapBlock, mapBlock, base
      ensures Valid() && Disjoint(layout, Disk())
      ensures Sane(layout, Disk()) <==> !Leaks(layout, Disk(), offset + which)
      ensures ok || base.Erases() ==> Sane(layout, Disk())
      ensures Wrote(layout, old(Disk()), Disk(), offset + which, ok, base.reliable)
      ensures ok ==> ThinView(layout, Disk(), offset + which) == Some(from)
      ensures ok ==> Placed(layout, old(Disk()), Disk(), offset + which, old(freeScanFrom), freeScanFrom)
      ensures base.Erases() && !ok ==> Hindered(layout, old(Disk()), Disk(), offset + which)
    {
      hide Bdev.View, Bdev.Valid, ContentsOf, Entry, Free, Disjoint, Sane, Leaks, ThinView, Wrote, Assigned, Hindered;
      hide Found, Placed;
      ghost var d, i := Disk(), offset + which;
      SaneIsDisjoint(layout, d);
      var maploc := BlockMaploc(which + offset);
      EntryNotOne(layout, d, i);
      if maploc == 1 {
        NothingWritten(layout, d, i, base.reliable);
        NothingShown(layout, d, d, i);
        return false;
      }
      ok := true;
      if maploc == 0 {
        ok, maploc := AllocateFor(which + offset);
      } else {
        AlreadyAssigned(layout, d, i, base.reliable);
      }
      ghost var d2 := Disk();
      NotAssigned(layout, d, d2, i, ok, maploc, base.reliable);
      if !ok { return; }
      ok := Store(maploc, from);
      StoreOutcome(layout, d, d2, i, maploc, Disk()[maploc], ok, base.reliable);
      NothingShown(layout, d, d2[maploc := Disk()[maploc]], i);
      assert Disk() == d2[maploc := Disk()[maploc]];
      if ok { PlacedIs(layout, d, Disk(), i, old(freeScanFrom), freeScanFrom, maploc); }
    }

    method ClearCaches()
      requires Valid()
      modifies this`bitmapBlockWhich, this`mapBlockWhich, base`whichHashBlock
      ensures Valid() && Disk() == old(Disk())
      ensures bitmapBlockWhich == mapBlockWhich == 0 && (base.verified ==> base.whichHashBlock == NONE)
    {
      hide Bdev.View, Bdev.Valid;
      ghost var d := Disk();
      bitmapBlockWhich, mapBlockWhich := 0, 0;
      base.ClearCaches();
      assert Disk() == d;
    }

    method ClearBitmap()
      requires Valid() && base.reliable
      modifies this`bitmapBlockWhich, bitmapBlock, base
      ensures Valid() && forall k :: 1 <= k < layout.MapsStart() ==> Disk()[k] == Some(Zeros(layout.bs))
    {
      hide Bdev.View, Bdev.Valid, ContentsOf, Zeros;
      bitmapBlockWhich := 0;
      Clear(bitmapBlock);
      for i := 1 to layout.MapsStart()
        invariant Valid() && bitmapBlockWhich == 0 && bitmapBlock[..] == Zeros(layout.bs)
        invariant forall k :: 1 <= k < i ==> Disk()[k] == Some(Zeros(layout.bs))
      {
        var _ := Store(i, bitmapBlock[..]);
      }
    }

    /** Formats a device that has no partitions yet: exactly the metadata is in use. */
    method Initialize()
      requires Valid() && base.reliable && layout.mapped == 0
      modifies this`bitmapBlockWhich, bitmapBlock, base
      ensures Valid() && Sane(layout, Disk()) && MetaReadable(layout, Disk())
      ensures forall b :: 0 <= b < layout.total ==> Free(layout, Disk(), b) == (b >= layout.DataStart())
    {
      hide Bdev.View, Bdev.Valid, ContentsOf, Partition.Disk, Partition.Wired, Free, Sane, Disjoint, Zeros;
      hide BitmapBlock, BitIndex, MetaReadable;
      ClearBitmap();
      ZerosReadable(layout, Disk());
      ZerosFree(layout, Disk());
      for i := 0 to layout.DataStart()
        invariant Valid() && MetaReadable(layout, Disk())
        invariant forall b :: 0 <= b < layout.total ==> Free(layout, Disk(), b) == (b >= i)
      {
        MarkNext(i);
      }
      FormattedSane(layout, Disk());
    }

    method MarkNext(i: nat)
      requires Valid() && base.reliable && MetaReadable(layout, Disk()) && i < layout.MapsStart()
      requires forall b :: 0 <= b < layout.total ==> Free(layout, Disk(), b) == (b >= i)
      modifies this`bitmapBlockWhich, bitmapBlock, base
      ensures Valid() && MetaReadable(layout, Disk())
      ensures forall b :: 0 <= b < layout.total ==> Free(layout, Disk(), b) == (b >= i + 1)
    {
      hide Bdev.View, Bdev.Valid, ContentsOf, Free, WithBit, BitmapBlock, BitIndex;
      BitmapBlockInRange(layout, i);
      ghost var d := Disk();
      var _ := MarkBlockAs(i, true);
      MarkEffect(layout, d, i, true, Disk());
    }

    /** Gives a free block to an empty entry of the map. */
    method AllocateFor(i: nat) returns (ok: bool, maploc: nat)
      requires Valid() && Sane(layout, Disk()) && i < layout.mapped && Entry(layout, Disk(), i) == Some(0)
      modifies this, bitmapBlock, mapBlock, base
      ensures Valid() && Disjoint(layout, Disk())
      ensures Sane(layout, Disk()) <==> !Leaks(layout, Disk(), i)
      ensures ok || base.Erases() ==> Sane(layout, Disk())
      ensures Assigned(layout, old(Disk()), Disk(), i, ok, maploc, base.reliable)
      ensures ok ==> Found(layout, old(Disk()), old(freeScanFrom), maploc) && freeScanFrom == maploc
      ensures base.Erases() && !ok ==> Hindered(layout, old(Disk()), Disk(), i)
    {
      hide Bdev.View, Bdev.Valid, ContentsOf, Entry, Free, MapBlock, MapOffset, BitmapBlock, BitIndex, WithBit;
      hide Splice, Pack;
      hide Disjoint, Sane, Leaks, ThinView, Assigned, MetaReadable, Room, Found;
      ghost var d := Disk();
      SaneIsDisjoint(layout, d);
      NotLeaking(layout, d, i);
      maploc := ScanFreeBlock();
      if maploc == 0 {
        RoomIs(layout, d);
        NoneFree(layout, d, i, base.reliable);
        return false, 0;
      }
      FoundIs(layout, d, old(freeScanFrom), maploc);
      MapLost(layout, d, i, maploc, base.reliable);
      NotGiven(layout, d, i, maploc, base.reliable);
      ok := BlockSetMaploc(i, maploc);
      if !ok {
        if Disk()[MapBlock(layout, i)].None? { MapGone(layout, Disk(), i); }
        return;
      }
      ghost var d1 := Disk();
      FreeIsReadable(layout, d, maploc);
      EntryKeepsBitmap(layout, d, i, maploc, d1);
      ok := MarkBlockAs(maploc, true);
      if Disk()[BitmapBlock(layout, maploc)].None? { BitmapGone(layout, Disk(), maploc); }
      BlockGiven(layout, d, i, maploc, d1, Disk(), ok, base.reliable);
    }
  }

  // ---- what a write leaves behind

  lemma ZerosFree(l: Layout, d: Contents)
    requires SizedDisk(l, d) && forall k :: 1 <= k < l.MapsStart() ==> d[k] == Some(Zeros(l.bs))
    ensures forall b :: 0 <= b < l.total ==> Free(l, d, b)
  {
    hide BitAt;
    forall b | 0 <= b < l.total
      ensures Free(l, d, b)
    {
      BitmapBlockInRange(l, b);
      ZeroBit(BitIndex(l, b) % 8);
    }
  }

  lemma ZerosReadable(l: Layout, d: Contents)
    requires SizedDisk(l, d) && l.mapped == 0 && forall k :: 1 <= k < l.MapsStart() ==> d[k] == Some(Zeros(l.bs))
    ensures MetaReadable(l, d) && l.DataStart() == l.MapsStart() <= l.total
  {}

  lemma FormattedSane(l: Layout, d: Contents)
    requires SizedDisk(l, d) && l.mapped == 0
    requires forall b :: 0 <= b < l.total ==> Free(l, d, b) == (b >= l.DataStart())
    ensures Sane(l, d)
  {
    hide Free;
  }

  /** The free blocks are the ones there were, less the one the entry has been given. */
  ghost predicate FreeAfter(l: Layout, d: Contents, d': Contents, i: nat)
    requires Disjoint(l, d) && Disjoint(l, d') && i < l.mapped
  {
    && Points(Entry(l, d', i))
    && (if Entry(l, d, i) == Some(0) then
          l.DataStart() <= Entry(l, d', i).value < l.total && Free(l, d, Entry(l, d', i).value)
        else Entry(l, d', i) == Entry(l, d, i))
    && forall b :: 0 <= b < l.total ==> Free(l, d', b) == (Free(l, d, b) && Some(b) != Entry(l, d', i))
  }

  ghost predicate Room(l: Layout, d: Contents)
    requires SizedDisk(l, d)
  {
    exists b :: 1 <= b < l.total && Free(l, d, b)
  }

  ghost predicate Faultless(l: Layout, d: Contents, d': Contents, i: nat, ok: bool)
    requires Disjoint(l, d) && Disjoint(l, d') && i < l.mapped
  {
    && MetaReadable(l, d') && OthersSame(l, d, d', i) && EntriesSame(l, d, d', i)
    && ok == (Points(Entry(l, d, i)) || Room(l, d))
    && (!ok ==> d' == d)
  }

  /** What the entry shows after a write of it has failed: what it did, nothing, or what is in the block
      it has been given, one that was free. */
  ghost predicate Landed(l: Layout, d: Contents, d': Contents, i: nat)
    requires Disjoint(l, d) && Disjoint(l, d') && i < l.mapped
  {
    || ThinView(l, d', i) in {ThinView(l, d, i), None}
    || (&& Entry(l, d, i) == Some(0) && Points(Entry(l, d', i))
        && Entry(l, d', i).value < l.total && Free(l, d, Entry(l, d', i).value)
        && ThinView(l, d', i) == d[Entry(l, d', i).value])
  }

  /** Why a write may be refused where failed writes lose the block: the entry shows nothing afterwards,
      or it needed a block and part of the metadata is gone or none was free. */
  ghost predicate Hindered(l: Layout, d: Contents, d': Contents, i: nat)
    requires Disjoint(l, d) && Disjoint(l, d') && i < l.mapped
  {
    ThinView(l, d', i).None? || (Entry(l, d, i) == Some(0) && (!MetaReadable(l, d') || !Room(l, d)))
  }

  ghost predicate Wrote(l: Layout, d: Contents, d': Contents, i: nat, ok: bool, reliable: bool)
    requires Disjoint(l, d) && Disjoint(l, d') && i < l.mapped
  {
    && OthersWeaker(l, d, d', i) && (!ok ==> Landed(l, d, d', i))
    && (ok ==> FreeAfter(l, d, d', i))
    && (reliable && MetaReadable(l, d) ==> Faultless(l, d, d', i, ok))
  }

  ghost predicate Assigned(l: Layout, d: Contents, d': Contents, i: nat, ok: bool, maploc: nat, reliable: bool)
    requires Disjoint(l, d) && Disjoint(l, d') && i < l.mapped
  {
    && Wrote(l, d, d', i, ok, reliable)
    && (ok ==> maploc != 0 && Entry(l, d', i) == Some(maploc) && OthersSame(l, d, d', i) && EntriesSame(l, d, d', i))
    && (ok ==> maploc < |d| && maploc < |d'| && d'[maploc] == d[maploc])
  }

  lemma FoundIs(l: Layout, d: Contents, from: nat, b: nat)
    requires SizedDisk(l, d) && Found(l, d, from, b)
    ensures 1 <= b < l.total && Free(l, d, b)
  {
    hide Free;
  }

  lemma PlacedIs(l: Layout, d: Contents, d': Contents, i: nat, from: nat, from': nat, b: nat)
    requires SizedDisk(l, d) && SizedDisk(l, d') && i < l.mapped && Entry(l, d', i) == Some(b)
    requires if Entry(l, d, i) == Some(0) then Found(l, d, from, b) && from' == b
             else Entry(l, d, i) == Some(b) && from' == from
    ensures Placed(l, d, d', i, from, from')
  {
    hide Entry, Found;
  }

  lemma RoomIs(l: Layout, d: Contents)
    requires SizedDisk(l, d)
    ensures Room(l, d) <==> !(forall b :: 1 <= b < l.total ==> !Free(l, d, b))
  {
    hide Free;
  }

  lemma MapGone(l: Layout, d: Contents, i: nat)
    requires SizedDisk(l, d) && i < l.mapped && MapBlock(l, i) < |d| && d[MapBlock(l, i)].None?
    ensures !MetaReadable(l, d)
  {
    hide MapBlock;
    MapBlockInRange(l, i);
  }

  lemma BitmapGone(l: Layout, d: Contents, b: nat)
    requires SizedDisk(l, d) && b < l.total && BitmapBlock(l, b) < |d| && d[BitmapBlock(l, b)].None?
    ensures !MetaReadable(l, d)
  {
    hide BitmapBlock;
    BitmapBlockInRange(l, b);
  }

  lemma NothingShown(l: Layout, d: Contents, d': Contents, i: nat)
    requires Disjoint(l, d) && Disjoint(l, d') && i < l.mapped
    ensures Entry(l, d', i).None? || ThinView(l, d', i).None? ==> Hindered(l, d, d', i)
  {
    hide Entry, Free, MetaReadable, Room;
  }

  lemma SaneIsDisjoint(l: Layout, d: Contents)
    requires Sane(l, d)
    ensures Disjoint(l, d) && SizedDisk(l, d)
  {}

  lemma NotLeaking(l: Layout, d: Contents, i: nat)
    requires Sane(l, d) && i < l.mapped
    ensures Disjoint(l, d) && !Leaks(l, d, i)
  {}

  lemma EntryNotOne(l: Layout, d: Contents, i: nat)
    requires Disjoint(l, d) && i < l.mapped
    ensures Entry(l, d, i) != Some(1)
  {
    hide Entry, Free;
    assert InArea(l, Entry(l, d, i));
    BitmapBlockInRange(l, 0);
  }

  lemma NothingWritten(l: Layout, d: Contents, i: nat, reliable: bool)
    requires Sane(l, d) && i < l.mapped && Entry(l, d, i).None?
    ensures Wrote(l, d, d, i, false, reliable) && !Leaks(l, d, i)
  {
    hide Free, MapBlock;
    MapBlockInRange(l, i);
  }

  lemma AlreadyAssigned(l: Layout, d: Contents, i: nat, reliable: bool)
    requires Sane(l, d) && i < l.mapped && Points(Entry(l, d, i))
    ensures Assigned(l, d, d, i, true, Entry(l, d, i).value, reliable) && !Leaks(l, d, i)
  {
    hide Free, Entry;
    assert !Leaks(l, d, i);
  }

  lemma NotAssigned(l: Layout, d: Contents, d': Contents, i: nat, ok: bool, maploc: nat, reliable: bool)
    requires Disjoint(l, d) && Disjoint(l, d') && i < l.mapped && Assigned(l, d, d', i, ok, maploc, reliable)
    ensures !ok ==> Wrote(l, d, d', i, false, reliable)
    ensures ok ==> l.DataStart() <= maploc < l.total
  {
    hide Free, Entry;
    assert InArea(l, Entry(l, d', i));
  }

  /** The data block is written, or not, and shows v. */
  lemma StoreOutcome(l: Layout, d: Contents, d2: Contents, i: nat, maploc: nat, v: Option<Block>, ok: bool,
                     reliable: bool)
    requires Disjoint(l, d) && Sane(l, d2) && i < l.mapped && Assigned(l, d, d2, i, true, maploc, reliable)
    requires (v.Some? ==> |v.value| == l.bs) && (reliable ==> ok) && maploc < |d2|
    requires !ok ==> v in {d2[maploc], None}
    ensures Sane(l, d2[maploc := v]) && Disjoint(l, d2[maploc := v]) && !Leaks(l, d2[maploc := v], i)
    ensures ThinView(l, d2[maploc := v], i) == v && Entry(l, d2[maploc := v], i) == Some(maploc)
    ensures Wrote(l, d, d2[maploc := v], i, ok, reliable)
  {
    hide Free, Entry, ThinView, Sane, Disjoint, MetaReadable;
    SaneIsDisjoint(l, d2);
    Overwrite(l, d2, i, v);
    SaneIsDisjoint(l, d2[maploc := v]);
    NotLeaking(l, d2[maploc := v], i);
    if !ok { StoreLands(l, d, d2, d2[maploc := v], i, maploc, v, reliable); }
  }

  lemma StoreLands(l: Layout, d: Contents, d2: Contents, d': Contents, i: nat, maploc: nat, v: Option<Block>,
                   reliable: bool)
    requires Disjoint(l, d) && Disjoint(l, d2) && Disjoint(l, d') && i < l.mapped && maploc < |d2|
    requires Assigned(l, d, d2, i, true, maploc, reliable) && v in {d2[maploc], None}
    requires Entry(l, d', i) == Entry(l, d2, i) && ThinView(l, d', i) == v
    ensures Landed(l, d, d', i)
  {
    hide Entry, Free;
    assert InArea(l, Entry(l, d', i));
    if Entry(l, d, i) == Some(maploc) { ShowsGiven(l, d, i, maploc); }
  }

  lemma NoneFree(l: Layout, d: Contents, i: nat, reliable: bool)
    requires Sane(l, d) && i < l.mapped && Entry(l, d, i) == Some(0) && (MetaReadable(l, d) ==> !Room(l, d))
    ensures Assigned(l, d, d, i, false, 0, reliable)
  {}

  /** Nothing has been written at all. */
  lemma NotGiven(l: Layout, d: Contents, i: nat, maploc: nat, reliable: bool)
    requires Sane(l, d) && i < l.mapped
    ensures reliable || Assigned(l, d, d, i, false, maploc, reliable)
  {}

  /** Losing the map block while writing it. */
  lemma MapLost(l: Layout, d: Contents, i: nat, maploc: nat, reliable: bool)
    requires Sane(l, d) && i < l.mapped
    ensures SizedDisk(l, d) && MapBlock(l, i) < |d|
    ensures reliable && MetaReadable(l, d) ==> d[MapBlock(l, i)].Some?
    ensures var d1 := d[MapBlock(l, i) := None];
      && Sane(l, d1) && Disjoint(l, d1) && !Leaks(l, d1, i)
      && ((reliable && MetaReadable(l, d)) || Assigned(l, d, d1, i, false, maploc, reliable))
  {
    hide Free, Entry, ThinView, MapBlock, Sane, Disjoint;
    SaneIsDisjoint(l, d);
    MapBlockInRange(l, i);
    LosingIsSafe(l, d, MapBlock(l, i));
    SaneIsDisjoint(l, d[MapBlock(l, i) := None]);
    NotLeaking(l, d[MapBlock(l, i) := None], i);
  }

  /** The bitmap is not touched by the map. */
  lemma EntryKeepsBitmap(l: Layout, d: Contents, i: nat, b: nat, d1: Contents)
    requires SizedDisk(l, d) && i < l.mapped && b < l.total && EntryWritten(l, d, i, b, d1)
    ensures BitmapBlock(l, b) < |d1| && d1[BitmapBlock(l, b)] == d[BitmapBlock(l, b)]
  {
    hide MapBlock, MapOffset, BitmapBlock, Splice, Pack;
    BitmapBlockInRange(l, b);
    MapBlockInRange(l, i);
  }

  lemma ShowsGiven(l: Layout, d: Contents, i: nat, b: nat)
    requires Disjoint(l, d) && i < l.mapped && Entry(l, d, i) == Some(b) && b != 0 && b < |d|
    ensures ThinView(l, d, i) == d[b]
  {
    hide Entry, Free;
  }

  lemma BlockGiven(l: Layout, d: Contents, i: nat, b: nat, d1: Contents, d2: Contents, ok: bool, reliable: bool)
    requires Sane(l, d) && i < l.mapped && Entry(l, d, i) == Some(0) && 1 <= b < l.total && Free(l, d, b)
    requires EntryWritten(l, d, i, b, d1) && BlockMarked(l, d1, b, d2, ok) && (reliable ==> ok)
    ensures Disjoint(l, d2) && Assigned(l, d, d2, i, ok, b, reliable)
    ensures Sane(l, d2) <==> !Leaks(l, d2, i)
    ensures ok || d2 == d1[BitmapBlock(l, b) := None] ==> Sane(l, d2)
  {
    hide Entry, Free, ThinView, MapBlock, MapOffset, BitmapBlock, BitIndex, BitGet, WithBit, Splice, Pack;
    Allocate(l, d, i, b, d1, d2, ok);
    assert InArea(l, Entry(l, d2, i));
    ShowsGiven(l, d2, i, b);
  }

  method PackBe64(from: nat, to: array<byte>, o: nat)
    requires o + 8 <= to.Length
    modifies to
    ensures to[..] == Splice(old(to[..]), o, Pack(8, from))
  {
    hide Pack;
    ByteAccess.Patch(to, o, Pack(8, from));
  }

  lemma OneByte(s: seq<byte>, i: nat, used: bool)
    requires i < 8 * |s|
    ensures WithBit(s, i, used) == s[i / 8 := WithBit(s, i, used)[i / 8]]
  {}
}
