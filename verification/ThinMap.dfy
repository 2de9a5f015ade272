/** The on-disk structures of the partitioner as values: a usage bitmap and a block map. */
module ThinMap {
  import opened Arithmetic
  import opened Bits
  import opened BitVector
  import opened Crc
  import opened Devices
  import opened Endian
  import opened Parity
  import opened PlainArray

  /** Header, then bitmapLen blocks of bitmap, then mapsLen blocks of map, then data. */
  datatype Layout = Layout(bs: nat, total: nat, mapped: nat) {
    function PerBitmap(): nat { bs * 8 }

    function PerMap(): nat { bs / 8 }

    function BitmapLen(): nat
      requires bs >= 8
    {
      (total + PerBitmap() - 1) / PerBitmap()
    }

    function MapsLen(): nat
      requires bs >= 8
    {
      (mapped + PerMap() - 1) / PerMap()
    }

    function MapsStart(): (m: nat)
      requires bs >= 8
      ensures m >= 1
    {
      1 + BitmapLen()
    }

    function DataStart(): (d: nat)
      requires bs >= 8
      ensures d >= MapsStart()
    {
      MapsStart() + MapsLen()
    }

    ghost predicate Valid(n: nat) {
      bs >= 512 && 2 <= total <= n <= NONE && DataStart() <= total
    }
  }

  lemma NoOverflow()
    ensures Pow256(8) == NONE + 1
  {
    assert Pow256(1) == 256 && Pow256(2) == 65536 && Pow256(3) == 16777216 && Pow256(4) == 4294967296;
  }

  function BitmapBlock(l: Layout, b: nat): nat
    requires l.bs >= 8
  {
    1 + Quotient(b, l.PerBitmap())
  }

  function BitIndex(l: Layout, b: nat): (i: nat)
    requires l.bs >= 8
    ensures i < 8 * l.bs
  {
    b % l.PerBitmap()
  }

  function MapBlock(l: Layout, i: nat): nat
    requires l.bs >= 8
  {
    l.MapsStart() + Quotient(i, l.PerMap())
  }

  function MapOffset(l: Layout, i: nat): (o: nat)
    requires l.bs >= 8
    ensures o + 8 <= l.bs
  {
    i % l.PerMap() * 8
  }

  /** After the header the bitmap, a bit for every block of the device, eight bits to a byte. */
  lemma BitmapPlace(l: Layout, b: nat)
    requires l.bs >= 8
    ensures Least(l.MapsStart() - 1, l.total, 8 * l.bs)
    ensures BitmapBlock(l, b) >= 1 && (BitmapBlock(l, b) - 1) * (8 * l.bs) + BitIndex(l, b) == b
  {
    var per := l.PerBitmap();
    RoundedUp(l.total, per);
    DivMod(b, per);
    assert per == 8 * l.bs;
    hide Least;
  }

  /** Then the map, eight bytes for every entry, filling each block from its start. */
  lemma MapPlace(l: Layout, i: nat)
    requires l.bs >= 8
    ensures Least(l.DataStart() - l.MapsStart(), l.mapped, l.bs / 8)
    ensures MapBlock(l, i) >= l.MapsStart() && MapOffset(l, i) % 8 == 0
    ensures (MapBlock(l, i) - l.MapsStart()) * (l.bs / 8) + MapOffset(l, i) / 8 == i
  {
    var per := l.PerMap();
    RoundedUp(l.mapped, per);
    DivMod(i, per);
    assert MapOffset(l, i) / 8 == i % per;
    hide Least;
  }

  /** Where blocks are a multiple of eight bytes long, the entries follow one another without gaps. */
  lemma EntriesInARow(l: Layout, i: nat)
    requires l.bs >= 8 && l.bs % 8 == 0
    ensures MapBlock(l, i) * l.bs + MapOffset(l, i) == l.MapsStart() * l.bs + 8 * i
  {
    var q, r := Quotient(i, l.PerMap()), i % l.PerMap();
    DivMod(i, l.PerMap());
    assert l.bs == 8 * l.PerMap();
    assert q * l.bs == 8 * (l.PerMap() * q);
    assert (l.MapsStart() + q) * l.bs == l.MapsStart() * l.bs + q * l.bs;
  }

  lemma QuotientBelow(k: nat, n: nat, d: nat)
    requires d > 0 && k < n
    ensures Quotient(k, d) < (n + d - 1) / d
  {
    var q := (n + d - 1) / d;
    DivMod(k, d);
    DivMod(n + d - 1, d);
    MulSuccessor(d, q);
    if k / d >= q { MulMonotone(d, q, k / d); }
  }

  lemma BitmapBlockInRange(l: Layout, b: nat)
    requires l.bs >= 8 && b < l.total
    ensures 1 <= BitmapBlock(l, b) < l.MapsStart()
  {
    QuotientBelow(b, l.total, l.PerBitmap());
  }

  lemma MapBlockInRange(l: Layout, i: nat)
    requires l.bs >= 8 && i < l.mapped
    ensures l.MapsStart() <= MapBlock(l, i) < l.DataStart()
  {
    QuotientBelow(i, l.mapped, l.PerMap());
  }

  lemma BitsApart(l: Layout, b: nat, c: nat)
    requires l.bs >= 8 && BitmapBlock(l, b) == BitmapBlock(l, c) && BitIndex(l, b) == BitIndex(l, c)
    ensures b == c
  {
    DivMod(b, l.PerBitmap());
    DivMod(c, l.PerBitmap());
  }

  lemma EntriesApart(l: Layout, i: nat, j: nat)
    requires l.bs >= 8 && MapBlock(l, i) == MapBlock(l, j) && MapOffset(l, i) == MapOffset(l, j)
    ensures i == j
  {
    DivMod(i, l.PerMap());
    DivMod(j, l.PerMap());
  }

  ghost predicate SizedDisk(l: Layout, d: Contents) {
    && l.Valid(|d|)
    && forall b :: 0 <= b < |d| && d[b].Some? ==> |d[b].value| == l.bs
  }

  /** The bitmap can be read there and says the block is free. */
  ghost predicate Free(l: Layout, d: Contents, b: nat)
    requires SizedDisk(l, d) && b < l.total
  {
    BitmapBlockInRange(l, b);
    var k := BitmapBlock(l, b);
    d[k].Some? && !BitGet(d[k].value, BitIndex(l, b))
  }

  /** The number at entry i of the map, if the map can be read there. */
  ghost function Entry(l: Layout, d: Contents, i: nat): Option<nat>
    requires SizedDisk(l, d) && i < l.mapped
  {
    MapBlockInRange(l, i);
    var k, o := MapBlock(l, i), MapOffset(l, i);
    if d[k].None? then None else Some(Unpack(d[k].value[o..o + 8]))
  }

  /** A block is free when its bit is clear, the bits of a byte being counted from the least significant. */
  lemma FreeIs(l: Layout, d: Contents, b: nat)
    requires SizedDisk(l, d) && b < l.total
    ensures var k, o := BitmapBlock(l, b), BitIndex(l, b);
      && k < |d| && (d[k].Some? ==> o / 8 < |d[k].value|) && Pow2(o % 8) > 0
      && (Free(l, d, b) <==> d[k].Some? && d[k].value[o / 8] as nat / Pow2(o % 8) % 2 == 0)
  {
    hide BitGet, BitmapBlock, BitIndex, Pow2;
    BitmapBlockInRange(l, b);
    var k, o := BitmapBlock(l, b), BitIndex(l, b);
    BitAtIs(0, o % 8);
    if d[k].Some? { BitGetIs(d[k].value, o); }
  }

  /** An entry is stored most significant byte first. */
  lemma EntryIs(l: Layout, d: Contents, i: nat)
    requires SizedDisk(l, d) && i < l.mapped
    ensures MapBlock(l, i) < |d| && Entry(l, d, i).Some? == d[MapBlock(l, i)].Some?
    ensures Entry(l, d, i).Some? ==>
      && MapOffset(l, i) + 8 <= |d[MapBlock(l, i)].value| && Entry(l, d, i).value <= NONE
      && IsBigEndian(d[MapBlock(l, i)].value[MapOffset(l, i)..MapOffset(l, i) + 8], Entry(l, d, i).value)
  {
    hide MapBlock, MapOffset, Unpack, IsBigEndian;
    MapBlockInRange(l, i);
    NoOverflow();
    if d[MapBlock(l, i)].Some? {
      UnpackIsBigEndian(d[MapBlock(l, i)].value[MapOffset(l, i)..MapOffset(l, i) + 8]);
    }
  }

  ghost predicate Points(e: Option<nat>) { e.Some? && e.value != 0 }

  ghost predicate InArea(l: Layout, e: Option<nat>)
    requires l.bs >= 8
  {
    Points(e) ==> l.DataStart() <= e.value < l.total
  }

  ghost predicate Distinct(e: Option<nat>, f: Option<nat>) { Points(e) && Points(f) ==> e.value != f.value }

  /** No data block is in use twice, nor any other block for data. */
  ghost predicate Disjoint(l: Layout, d: Contents) {
    && SizedDisk(l, d)
    && (forall b :: 0 <= b < l.DataStart() ==> !Free(l, d, b))
    && (forall i :: 0 <= i < l.mapped ==> InArea(l, Entry(l, d, i)))
    && forall i, j :: 0 <= i < j < l.mapped ==> Distinct(Entry(l, d, i), Entry(l, d, j))
  }

  /** The block entry i points to is marked free. */
  ghost predicate Leaks(l: Layout, d: Contents, i: nat)
    requires Disjoint(l, d) && i < l.mapped
  {
    assert InArea(l, Entry(l, d, i));
    Points(Entry(l, d, i)) && Free(l, d, Entry(l, d, i).value)
  }

  /** Moreover nothing in use is marked free. */
  ghost predicate Sane(l: Layout, d: Contents) {
    Disjoint(l, d) && forall i :: 0 <= i < l.mapped ==> !Leaks(l, d, i)
  }

  /** What the thin device shows at entry i of the map. */
  ghost function ThinView(l: Layout, d: Contents, i: nat): (v: Option<Block>)
    requires Disjoint(l, d) && i < l.mapped
    ensures v.Some? ==> |v.value| == l.bs
  {
    var e := Entry(l, d, i);
    assert InArea(l, e);
    if e.None? then None else if e.value == 0 then Some(Zeros(l.bs)) else d[e.value]
  }

  // ---- what each kind of write does

  /** A bitmap block is rewritten with one bit changed. */
  lemma MarkEffect(l: Layout, d: Contents, b: nat, used: bool, d': Contents)
    requires SizedDisk(l, d) && b < l.total && BitmapBlock(l, b) < |d| && d[BitmapBlock(l, b)].Some?
    requires d' == d[BitmapBlock(l, b) := Some(WithBit(d[BitmapBlock(l, b)].value, BitIndex(l, b), used))]
    ensures SizedDisk(l, d')
    ensures forall x :: 0 <= x < l.total ==> Free(l, d', x) == if x == b then !used else Free(l, d, x)
    ensures forall i :: 0 <= i < l.mapped ==> Entry(l, d', i) == Entry(l, d, i)
  {
    hide BitGet, WithBit, BitIndex, BitmapBlock, MapBlock, MapOffset, Unpack;
    BitmapBlockInRange(l, b);
    BitFacts(d[BitmapBlock(l, b)].value, BitIndex(l, b), used);
    forall x | 0 <= x < l.total
      ensures Free(l, d', x) == if x == b then !used else Free(l, d, x)
    {
      BitmapBlockInRange(l, x);
      if BitmapBlock(l, x) == BitmapBlock(l, b) && BitIndex(l, x) == BitIndex(l, b) { BitsApart(l, x, b); }
    }
    forall i | 0 <= i < l.mapped
      ensures Entry(l, d', i) == Entry(l, d, i)
    {
      MapBlockInRange(l, i);
    }
  }

  function WithBit(s: seq<byte>, which: nat, used: bool): (r: seq<byte>)
    requires which < 8 * |s|
    ensures |r| == |s|
  {
    if used then BitSet(s, which) else BitClear(s, which)
  }

  lemma BitFacts(s: seq<byte>, which: nat, used: bool)
    requires which < 8 * |s|
    ensures forall j :: 0 <= j < 8 * |s| ==>
      BitGet(WithBit(s, which, used), j) == if j == which then used else BitGet(s, j)
  {
    hide BitGet;
    assert forall j :: 0 <= j < 8 * |s| ==> BitGet(BitSet(s, which), j) == (j == which || BitGet(s, j));
    assert forall j :: 0 <= j < 8 * |s| ==> BitGet(BitClear(s, which), j) == (j != which && BitGet(s, j));
  }

  /** A map block is rewritten with one entry changed. */
  lemma SetEntryEffect(l: Layout, d: Contents, i: nat, to: nat, d': Contents)
    requires SizedDisk(l, d) && i < l.mapped && to <= NONE && MapBlock(l, i) < |d| && d[MapBlock(l, i)].Some?
    requires d' == d[MapBlock(l, i) := Some(Splice(d[MapBlock(l, i)].value, MapOffset(l, i), Pack(8, to)))]
    ensures SizedDisk(l, d')
    ensures forall x :: 0 <= x < l.total ==> Free(l, d', x) == Free(l, d, x)
    ensures forall j :: 0 <= j < l.mapped ==> Entry(l, d', j) == if j == i then Some(to) else Entry(l, d, j)
  {
    hide BitGet, BitIndex, BitmapBlock, MapBlock, MapOffset, Unpack, Pack, Splice;
    MapBlockInRange(l, i);
    var k, o := MapBlock(l, i), MapOffset(l, i);
    NoOverflow();
    UnpackSmall(8, to);
    forall x | 0 <= x < l.total
      ensures Free(l, d', x) == Free(l, d, x)
    {
      BitmapBlockInRange(l, x);
    }
    forall j | 0 <= j < l.mapped
      ensures Entry(l, d', j) == if j == i then Some(to) else Entry(l, d, j)
    {
      MapBlockInRange(l, j);
      if MapBlock(l, j) == k {
        if MapOffset(l, j) == o { EntriesApart(l, j, i); }
        OffsetsApart(l, i, j);
        SpliceField(d[k].value, o, Pack(8, to), MapOffset(l, j));
      }
    }
  }

  lemma OffsetsApart(l: Layout, i: nat, j: nat)
    requires l.bs >= 8
    ensures var a, b := MapOffset(l, i), MapOffset(l, j); a == b || a + 8 <= b || b + 8 <= a
  {}

  lemma SpliceField(s: seq<byte>, o: nat, p: seq<byte>, q: nat)
    requires |p| == 8 && o + 8 <= |s| && q + 8 <= |s| && (o == q || o + 8 <= q || q + 8 <= o)
    ensures Splice(s, o, p)[q..q + 8] == if o == q then p else s[q..q + 8]
  {}

  /** A metadata block becomes unreadable. */
  lemma LostEffect(l: Layout, d: Contents, k: nat, d': Contents)
    requires SizedDisk(l, d) && k < |d| && d' == d[k := None]
    ensures SizedDisk(l, d')
    ensures forall x :: 0 <= x < l.total ==> Free(l, d', x) ==> Free(l, d, x)
    ensures forall j :: 0 <= j < l.mapped ==> Entry(l, d', j) == if MapBlock(l, j) == k then None else Entry(l, d, j)
    ensures forall x :: 0 <= x < l.total && BitmapBlock(l, x) == k ==> !Free(l, d', x)
  {
    hide BitGet, BitIndex, BitmapBlock, MapBlock, MapOffset, Unpack;
    forall x | 0 <= x < l.total
      ensures Free(l, d', x) ==> Free(l, d, x)
    {
      BitmapBlockInRange(l, x);
    }
    forall j | 0 <= j < l.mapped
      ensures Entry(l, d', j) == if MapBlock(l, j) == k then None else Entry(l, d, j)
    {
      MapBlockInRange(l, j);
    }
  }

  /** A data block changes. */
  lemma DataEffect(l: Layout, d: Contents, k: nat, v: Option<Block>, d': Contents)
    requires SizedDisk(l, d) && l.DataStart() <= k < |d| && d' == d[k := v] && (v.Some? ==> |v.value| == l.bs)
    ensures SizedDisk(l, d')
    ensures forall x :: 0 <= x < l.total ==> Free(l, d', x) == Free(l, d, x)
    ensures forall j :: 0 <= j < l.mapped ==> Entry(l, d', j) == Entry(l, d, j)
  {
    hide BitGet, BitIndex, BitmapBlock, MapBlock, MapOffset, Unpack;
    forall x | 0 <= x < l.total
      ensures Free(l, d', x) == Free(l, d, x)
    {
      BitmapBlockInRange(l, x);
    }
    forall j | 0 <= j < l.mapped
      ensures Entry(l, d', j) == Entry(l, d, j)
    {
      MapBlockInRange(l, j);
    }
  }

  // ---- whole operations

  /** All of the bitmap and the map can be read. */
  ghost predicate MetaReadable(l: Layout, d: Contents)
    requires SizedDisk(l, d)
  {
    forall k :: 1 <= k < l.DataStart() ==> d[k].Some?
  }

  /** Entries other than i show what they showed, or nothing. */
  ghost predicate OthersWeaker(l: Layout, d: Contents, d': Contents, i: nat)
    requires Disjoint(l, d) && Disjoint(l, d')
  {
    forall j :: 0 <= j < l.mapped && j != i ==> ThinView(l, d', j) in {ThinView(l, d, j), None}
  }

  ghost predicate OthersSame(l: Layout, d: Contents, d': Contents, i: nat)
    requires Disjoint(l, d) && Disjoint(l, d')
  {
    forall j :: 0 <= j < l.mapped && j != i ==> ThinView(l, d', j) == ThinView(l, d, j)
  }

  ghost predicate EntriesSame(l: Layout, d: Contents, d': Contents, i: nat)
    requires SizedDisk(l, d) && SizedDisk(l, d')
  {
    forall j :: 0 <= j < l.mapped && j != i ==> Entry(l, d', j) == Entry(l, d, j)
  }

  /** Nothing becomes free and no entry changes its value. */
  lemma SaneKept(l: Layout, d: Contents, d': Contents)
    requires Disjoint(l, d) && SizedDisk(l, d')
    requires forall x :: 0 <= x < l.total ==> Free(l, d', x) ==> Free(l, d, x)
    requires forall j :: 0 <= j < l.mapped ==> Entry(l, d', j) in {Entry(l, d, j), None}
    ensures Disjoint(l, d') && (Sane(l, d) ==> Sane(l, d'))
  {
    hide Entry, Free;
    forall i | 0 <= i < l.mapped
      ensures InArea(l, Entry(l, d', i))
    {
      assert InArea(l, Entry(l, d, i));
    }
    forall i, j | 0 <= i < j < l.mapped
      ensures Distinct(Entry(l, d', i), Entry(l, d', j))
    {
      assert Distinct(Entry(l, d, i), Entry(l, d, j));
    }
    if Sane(l, d) {
      forall i | 0 <= i < l.mapped
        ensures !Leaks(l, d', i)
      {
        assert !Leaks(l, d, i);
      }
    }
  }

  /** Overwriting the block an entry points to changes that entry's view only. */
  lemma Overwrite(l: Layout, d: Contents, i: nat, v: Option<Block>)
    requires Sane(l, d) && i < l.mapped && Points(Entry(l, d, i)) && (v.Some? ==> |v.value| == l.bs)
    ensures l.DataStart() <= Entry(l, d, i).value < l.total
    ensures var d' := d[Entry(l, d, i).value := v];
      && Sane(l, d') && OthersSame(l, d, d', i) && ThinView(l, d', i) == v
      && (MetaReadable(l, d) ==> MetaReadable(l, d'))
      && Entry(l, d', i) == Entry(l, d, i) && EntriesSame(l, d, d', i)
      && forall x :: 0 <= x < l.total ==> Free(l, d', x) == Free(l, d, x)
  {
    hide Entry, Free;
    assert InArea(l, Entry(l, d, i));
    var e := Entry(l, d, i).value;
    var d' := d[e := v];
    DataEffect(l, d, e, v, d');
    SaneKept(l, d, d');
    forall j | 0 <= j < l.mapped && j != i
      ensures ThinView(l, d', j) == ThinView(l, d, j)
    {
      assert Distinct(Entry(l, d, if i < j then i else j), Entry(l, d, if i < j then j else i));
    }
  }

  /** A lost metadata block takes entries and free blocks away, and nothing else. */
  lemma LosingIsSafe(l: Layout, d: Contents, k: nat)
    requires Sane(l, d) && 1 <= k < l.DataStart()
    ensures Sane(l, d[k := None]) && OthersWeaker(l, d, d[k := None], l.mapped)
  {
    hide Entry, Free;
    var d' := d[k := None];
    LostEffect(l, d, k, d');
    SaneKept(l, d, d');
    forall j | 0 <= j < l.mapped && j != l.mapped
      ensures ThinView(l, d', j) in {ThinView(l, d, j), None}
    {
      assert InArea(l, Entry(l, d, j));
    }
  }

  /** Entry i of the map is written over with block b. */
  ghost predicate EntryWritten(l: Layout, d: Contents, i: nat, b: nat, d1: Contents)
    requires l.bs >= 8
  {
    && MapBlock(l, i) < |d| && d[MapBlock(l, i)].Some? && |d[MapBlock(l, i)].value| == l.bs
    && d1 == d[MapBlock(l, i) := Some(Splice(d[MapBlock(l, i)].value, MapOffset(l, i), Pack(8, b)))]
  }

  /** Then block b is marked used; when that fails, the bitmap block is lost or as it was. */
  ghost predicate BlockMarked(l: Layout, d1: Contents, b: nat, d2: Contents, ok: bool)
    requires l.bs >= 8
  {
    var k := BitmapBlock(l, b);
    && k < |d1|
    && if ok then
         && d1[k].Some? && |d1[k].value| == l.bs
         && d2 == d1[k := Some(WithBit(d1[k].value, BitIndex(l, b), true))]
       else d2 in {d1, d1[k := None]}
  }

  /** A free block is given to an empty entry: d1 after the map was written, d2 after the bitmap
      was, or should have been. The allocations stay disjoint in any case. The next one is safe as
      well exactly when the bitmap was written or is lost. */
  lemma Allocate(l: Layout, d: Contents, i: nat, b: nat, d1: Contents, d2: Contents, ok: bool)
    requires Sane(l, d) && i < l.mapped && Entry(l, d, i) == Some(0) && 1 <= b < l.total && Free(l, d, b)
    requires EntryWritten(l, d, i, b, d1) && BlockMarked(l, d1, b, d2, ok)
    ensures Disjoint(l, d2) && OthersWeaker(l, d, d2, i)
    ensures Sane(l, d2) <==> !Leaks(l, d2, i)
    ensures Sane(l, d2) <==> ok || d2[BitmapBlock(l, b)].None?
    ensures Entry(l, d2, i) == Some(b) && b < |d| && b < |d2| && d2[b] == d[b]
    ensures ok ==> OthersSame(l, d, d2, i) && EntriesSame(l, d, d2, i)
    ensures ok ==> forall x :: 0 <= x < l.total ==> Free(l, d2, x) == (Free(l, d, x) && x != b)
    ensures ok && MetaReadable(l, d) ==> MetaReadable(l, d2)
  {
    hide Entry, Free, MapBlock, MapOffset, BitmapBlock, BitIndex, WithBit, Splice, Pack;
    SetEntryEffect(l, d, i, b, d1);
    BitmapBlockInRange(l, b);
    MapBlockInRange(l, i);
    FreeIsReadable(l, d, b);
    if ok {
      MarkEffect(l, d1, b, true, d2);
    } else if d2 != d1 {
      LostEffect(l, d1, BitmapBlock(l, b), d2);
    }
    assert l.DataStart() <= b;
    Given(l, d, i, b, d2);
    forall j | 0 <= j < l.mapped && j != i
      ensures ThinView(l, d2, j) in {ThinView(l, d, j), None} && (ok ==> ThinView(l, d2, j) == ThinView(l, d, j))
    {
      assert InArea(l, Entry(l, d, j));
    }
  }

  lemma FreeIsReadable(l: Layout, d: Contents, b: nat)
    requires SizedDisk(l, d) && b < l.total && Free(l, d, b)
    ensures BitmapBlock(l, b) < |d| && d[BitmapBlock(l, b)].Some?
  {
    BitmapBlockInRange(l, b);
  }

  lemma Given(l: Layout, d: Contents, i: nat, b: nat, d2: Contents)
    requires Sane(l, d) && i < l.mapped && l.DataStart() <= b < l.total && Free(l, d, b) && SizedDisk(l, d2)
    requires forall x :: 0 <= x < l.total && Free(l, d2, x) ==> Free(l, d, x)
    requires forall j :: 0 <= j < l.mapped ==> Entry(l, d2, j) in {if j == i then Some(b) else Entry(l, d, j), None}
    ensures Disjoint(l, d2) && (Sane(l, d2) <==> !Leaks(l, d2, i))
  {
    hide Entry, Free;
    forall j | 0 <= j < l.mapped
      ensures InArea(l, Entry(l, d2, j))
    {
      assert InArea(l, Entry(l, d, j));
    }
    forall j, k | 0 <= j < k < l.mapped
      ensures Distinct(Entry(l, d2, j), Entry(l, d2, k))
    {
      assert !Leaks(l, d, j) && !Leaks(l, d, k) && Distinct(Entry(l, d, j), Entry(l, d, k));
    }
    forall j | 0 <= j < l.mapped && j != i
      ensures !Leaks(l, d2, j)
    {
      assert !Leaks(l, d, j);
    }
  }

  /** From any disjoint state, writing block b into the map keeps the allocations disjoint exactly
      when no other entry points to it. */
  lemma SharingExactly(l: Layout, d: Contents, i: nat, b: nat, d1: Contents)
    requires Disjoint(l, d) && i < l.mapped && Entry(l, d, i) == Some(0) && 1 <= b < l.total && Free(l, d, b)
    requires EntryWritten(l, d, i, b, d1)
    ensures SizedDisk(l, d1)
    ensures (Disjoint(l, d1) <==> forall j :: 0 <= j < l.mapped && j != i ==> Entry(l, d, j) != Some(b))
  {
    hide Entry, Free, MapBlock, MapOffset, BitmapBlock, BitIndex, Splice, Pack;
    SetEntryEffect(l, d, i, b, d1);
    assert l.DataStart() <= b;
    if forall j :: 0 <= j < l.mapped && j != i ==> Entry(l, d, j) != Some(b) {
      forall j, k | 0 <= j < k < l.mapped
        ensures Distinct(Entry(l, d1, j), Entry(l, d1, k))
      {
        assert Distinct(Entry(l, d, j), Entry(l, d, k));
      }
      forall j | 0 <= j < l.mapped
        ensures InArea(l, Entry(l, d1, j))
      {
        assert InArea(l, Entry(l, d, j));
      }
    } else {
      var j :| 0 <= j < l.mapped && j != i && Entry(l, d, j) == Some(b);
      assert !Distinct(Entry(l, d1, if i < j then i else j), Entry(l, d1, if i < j then j else i));
    }
  }

  /** The way to two entries with one block: the map is written with b for entry i, marking b fails
      and leaves the bitmap as it was, and the next scan finds b again for entry j. */
  lemma SharedAfterFailure(l: Layout, d: Contents, i: nat, j: nat, b: nat, d1: Contents, d2: Contents)
    requires Sane(l, d) && i < l.mapped && j < l.mapped && i != j && 1 <= b < l.total && Free(l, d, b)
    requires Entry(l, d, i) == Some(0) && Entry(l, d, j) == Some(0)
    requires EntryWritten(l, d, i, b, d1) && EntryWritten(l, d1, j, b, d2)
    ensures SizedDisk(l, d1) && Disjoint(l, d1) && Free(l, d1, b) && !Sane(l, d1)
    ensures SizedDisk(l, d2) && Entry(l, d2, i) == Some(b) == Entry(l, d2, j) && !Disjoint(l, d2)
  {
    hide Entry, Free, MapBlock, MapOffset, BitmapBlock, BitIndex, Splice, Pack;
    BitmapBlockInRange(l, b);
    SetEntryEffect(l, d, i, b, d1);
    FreeIsReadable(l, d1, b);
    Allocate(l, d, i, b, d1, d1, false);
    SetEntryEffect(l, d1, j, b, d2);
    SharingExactly(l, d1, j, b, d2);
  }

  /** A bitmap block is replaced by zeros: all the blocks it stands for are free. */
  lemma ZeroedEffect(l: Layout, d: Contents, k: nat, d': Contents)
    requires SizedDisk(l, d) && 1 <= k < l.MapsStart() && k < |d| && d' == d[k := Some(Zeros(l.bs))]
    ensures SizedDisk(l, d')
    ensures forall x :: 0 <= x < l.total ==> Free(l, d', x) == (BitmapBlock(l, x) == k || Free(l, d, x))
    ensures forall j :: 0 <= j < l.mapped ==> Entry(l, d', j) == Entry(l, d, j)
  {
    hide BitmapBlock, MapBlock, MapOffset, Unpack, BitAt;
    forall x | 0 <= x < l.total
      ensures Free(l, d', x) == (BitmapBlock(l, x) == k || Free(l, d, x))
    {
      BitmapBlockInRange(l, x);
      ZeroBit(BitIndex(l, x) % 8);
    }
    forall j | 0 <= j < l.mapped
      ensures Entry(l, d', j) == Entry(l, d, j)
    {
      MapBlockInRange(l, j);
    }
  }

  /** The block is metadata, or some entry points to it. */
  ghost predicate InUse(l: Layout, d: Contents, b: nat)
    requires SizedDisk(l, d)
  {
    b < l.DataStart() || exists i :: 0 <= i < l.mapped && Entry(l, d, i) == Some(b)
  }

  /** A lost bitmap block that comes back as zeros, as it can on a verified base that loses hash
      blocks: that is safe exactly when none of the blocks it stands for is in use. */
  lemma RevivedExactly(l: Layout, d: Contents, k: nat)
    requires Sane(l, d) && 1 <= k < l.MapsStart() && k < |d| && d[k].None?
    ensures Sane(l, d[k := Some(Zeros(l.bs))]) <==>
      forall b: nat :: b < l.total && BitmapBlock(l, b) == k ==> !InUse(l, d, b)
  {
    hide Entry, Free, BitmapBlock, Zeros;
    var d' := d[k := Some(Zeros(l.bs))];
    ZeroedEffect(l, d, k, d');
    if forall b: nat :: b < l.total && BitmapBlock(l, b) == k ==> !InUse(l, d, b) {
      forall i | 0 <= i < l.mapped
        ensures InArea(l, Entry(l, d', i))
      {
        assert InArea(l, Entry(l, d, i));
      }
      forall i, j | 0 <= i < j < l.mapped
        ensures Distinct(Entry(l, d', i), Entry(l, d', j))
      {
        assert Distinct(Entry(l, d, i), Entry(l, d, j));
      }
      forall i | 0 <= i < l.mapped
        ensures !Leaks(l, d', i)
      {
        assert !Leaks(l, d, i) && InArea(l, Entry(l, d, i));
        if Points(Entry(l, d, i)) { assert InUse(l, d, Entry(l, d, i).value); }
      }
    } else {
      var b: nat :| b < l.total && BitmapBlock(l, b) == k && InUse(l, d, b);
      assert Free(l, d', b);
      if b >= l.DataStart() {
        var i :| 0 <= i < l.mapped && Entry(l, d, i) == Some(b);
        if Disjoint(l, d') { assert Leaks(l, d', i); }
      }
    }
  }
}
