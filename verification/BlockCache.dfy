/** A direct-mapped write-back cache of whole blocks. */
module BlockCaching {
  import opened BitVector
  import opened Bits
  import opened Devices
  import opened Parity
  import opened PlainArray
  import opened RowMajor
  import opened VerifyDevice

  /** Thomas Wang's 64-bit to 32-bit mix. */
  function Mix(k0: bv64): bv64 {
    var k1 := !k0 + (k0 << 18);
    var k2 := (k1 ^ (k1 >> 31)) * 21;
    var k3 := k2 ^ (k2 >> 11);
    var k4 := k3 + (k3 << 6);
    var k5 := k4 ^ (k4 >> 22);
    k5 & 0xffff_ffff
  }

  /** Two of its values. */
  lemma MixValues()
    ensures Mix(0) == 0x2aea_a2ab && Mix(0x0123_4567_89ab_cdef) == 0xadfa_ddd7
  {}

  function HashU64(key: nat): nat
    requires key <= NONE
  {
    Mix(key as bv64) as nat
  }

  function BlockHash(key: nat): nat { if key <= NONE then HashU64(key) else 0 }

  /** Which slot a block may occupy. */
  datatype Slots = Slots(size: nat, hash: nat -> nat) {
    function Of(which: nat): (hv: nat)
      requires size > 0
      ensures hv < size
    {
      hash(which) % size
    }
  }

  /** The cache and the device behind it as values. */
  datatype State = State(tags: seq<nat>, rows: seq<Block>, dirty: seq<byte>, base: Contents)

  /** Every tag sits in its own slot; only tagged slots are dirty; clean slots equal the base. */
  ghost predicate SlotOk(st: State, slots: Slots, hv: nat)
    requires slots.size > 0 && hv < |st.tags| == |st.rows| && hv < 8 * |st.dirty|
  {
    var tag := st.tags[hv];
    if tag == NONE then !BitGet(st.dirty, hv)
    else tag < |st.base| && slots.Of(tag) == hv && (!BitGet(st.dirty, hv) ==> st.base[tag] == Some(st.rows[hv]))
  }

  ghost predicate StateOk(st: State, slots: Slots, bs: nat) {
    && slots.size > 0 && |st.tags| == |st.rows| == slots.size <= 8 * |st.dirty|
    && |st.base| <= NONE
    && (forall hv :: 0 <= hv < slots.size ==> |st.rows[hv]| == bs)
    && forall hv :: 0 <= hv < slots.size ==> SlotOk(st, slots, hv)
  }

  /** The block as a user of the cache sees it. */
  ghost function Seen(st: State, slots: Slots, b: nat): Option<Block>
    requires slots.size > 0 && |st.tags| == |st.rows| == slots.size && b < |st.base|
  {
    var hv := slots.Of(b);
    if st.tags[hv] == b then Some(st.rows[hv]) else st.base[b]
  }

  ghost predicate Comparable(was: State, now: State, slots: Slots) {
    slots.size > 0 && |was.tags| == |was.rows| == slots.size == |now.tags| == |now.rows| && |was.base| == |now.base|
  }

  /** The cached block b has changed since it was on the base. */
  ghost predicate DirtyIn(st: State, slots: Slots, b: nat)
    requires slots.size > 0 && |st.tags| == slots.size
  {
    var hv := slots.Of(b);
    st.tags[hv] == b && hv < 8 * |st.dirty| && BitGet(st.dirty, hv)
  }

  /** The blocks whose write back failed are what the base still holds, or nothing; they had changed
      in the cache. All others are as they were. */
  ghost predicate SetBack(was: State, now: State, slots: Slots, lost: set<nat>)
    requires Comparable(was, now, slots)
  {
    && (forall b :: b in lost ==> b < |was.base| && DirtyIn(was, slots, b))
    && forall b: nat :: b < |was.base| ==>
      if b in lost then Seen(now, slots, b) in {was.base[b], None} else Seen(now, slots, b) == Seen(was, slots, b)
  }

  ghost predicate Same(was: State, now: State, slots: Slots)
    requires Comparable(was, now, slots)
  {
    forall b :: 0 <= b < |was.base| ==> Seen(now, slots, b) == Seen(was, slots, b)
  }

  /** After evicting slot hv, when the base has become base'. */
  ghost function Evicted(st: State, hv: nat, base': Contents): State
    requires hv < |st.tags| && hv < 8 * |st.dirty|
  {
    st.(tags := st.tags[hv := NONE], dirty := BitClear(st.dirty, hv), base := base')
  }

  /** What writing a dirty slot back does to the base; a failure loses the block or leaves it. */
  ghost predicate WrittenBack(st: State, hv: nat, base': Contents)
    requires hv < |st.tags| == |st.rows| && hv < 8 * |st.dirty|
  {
    if !BitGet(st.dirty, hv) then base' == st.base
    else
      && st.tags[hv] < |st.base|
      && base' in {st.base[st.tags[hv] := Some(st.rows[hv])], st.base[st.tags[hv] := None], st.base}
  }

  lemma EvictOk(st: State, slots: Slots, bs: nat, hv: nat, base': Contents)
    requires StateOk(st, slots, bs) && hv < slots.size && WrittenBack(st, hv, base')
    ensures StateOk(Evicted(st, hv, base'), slots, bs)
  {
    hide BitGet, BitSet, BitClear;
    ClearFacts(st.dirty, hv);
    assert SlotOk(st, slots, hv);
    forall k | 0 <= k < slots.size
      ensures SlotOk(Evicted(st, hv, base'), slots, k)
    {
      assert SlotOk(st, slots, k);
    }
  }

  /** Eviction shows the same blocks as before, except one whose write back failed. */
  lemma EvictKeeps(st: State, slots: Slots, bs: nat, hv: nat, base': Contents, b: nat)
    requires StateOk(st, slots, bs) && hv < slots.size && WrittenBack(st, hv, base') && b < |st.base|
    ensures Seen(Evicted(st, hv, base'), slots, b)
         == if b == st.tags[hv] && BitGet(st.dirty, hv) then base'[b] else Seen(st, slots, b)
    ensures b != st.tags[hv] ==> base'[b] == st.base[b]
  {
    hide BitGet, BitSet, BitClear;
    assert SlotOk(st, slots, hv);
    assert SlotOk(st, slots, slots.Of(b));
  }

  /** The block that is lost when slot hv is written back to what is now base'. */
  ghost function LostFrom(st: State, hv: nat, base': Contents): set<nat>
    requires hv < |st.tags| == |st.rows| && hv < 8 * |st.dirty|
  {
    var tag := st.tags[hv];
    if BitGet(st.dirty, hv) && tag < |base'| && base'[tag] != Some(st.rows[hv]) then {tag} else {}
  }

  lemma EvictSetsBack(st: State, slots: Slots, bs: nat, hv: nat, base': Contents)
    requires StateOk(st, slots, bs) && hv < slots.size && WrittenBack(st, hv, base')
    ensures SetBack(st, Evicted(st, hv, base'), slots, LostFrom(st, hv, base'))
    ensures forall b: nat :: b < |st.base| && b != st.tags[hv] ==> base'[b] == st.base[b]
  {
    hide BitGet, BitClear;
    assert SlotOk(st, slots, hv);
    forall b: nat | b < |st.base|
      ensures Seen(Evicted(st, hv, base'), slots, b)
           == if b == st.tags[hv] && BitGet(st.dirty, hv) then base'[b] else Seen(st, slots, b)
      ensures b != st.tags[hv] ==> base'[b] == st.base[b]
    {
      EvictKeeps(st, slots, bs, hv, base', b);
    }
  }

  lemma NothingSetBack(st: State, slots: Slots)
    requires Comparable(st, st, slots)
    ensures SetBack(st, st, slots, {})
  {}

  /** Slot after slot: what has been lost from the slots before i, and now from slot i. */
  lemma SetBackOn(st: State, mid: State, now: State, slots: Slots, i: nat, lost: set<nat>, more: set<nat>)
    requires Comparable(st, mid, slots) && Comparable(mid, now, slots) && i < slots.size <= 8 * |st.dirty|
    requires |mid.dirty| == |st.dirty|
    requires SetBack(st, mid, slots, lost) && SetBack(mid, now, slots, more) && more <= {mid.tags[i]}
    requires mid.tags[i] == st.tags[i] && BitGet(mid.dirty, i) == BitGet(st.dirty, i)
    requires |st.base| <= NONE && (mid.tags[i] == NONE || slots.Of(mid.tags[i]) == i)
    requires forall b :: b in lost ==> slots.Of(b) < i
    requires forall b: nat :: b < |st.base| && slots.Of(b) >= i ==> mid.base[b] == st.base[b]
    ensures SetBack(st, now, slots, lost + more) && forall b :: b in lost + more ==> slots.Of(b) <= i
  {
    hide BitGet;
    forall b | b in more
      ensures b < |st.base| && slots.Of(b) == i && DirtyIn(st, slots, b)
    {
      assert DirtyIn(mid, slots, b);
    }
  }

  lemma AllEvicted(st: State, slots: Slots, bs: nat)
    requires StateOk(st, slots, bs) && forall hv :: 0 <= hv < slots.size ==> st.tags[hv] == NONE
    ensures forall b :: 0 <= b < |st.base| ==> st.base[b] == Seen(st, slots, b)
  {}

  lemma ClearFacts(dirty: seq<byte>, hv: nat)
    requires hv < 8 * |dirty|
    ensures |BitClear(dirty, hv)| == |dirty|
    ensures forall j :: 0 <= j < 8 * |dirty| ==> BitGet(BitClear(dirty, hv), j) == (j != hv && BitGet(dirty, j))
  {}

  /** Filling an empty slot with the block the base holds. */
  lemma FillKeeps(st: State, slots: Slots, bs: nat, which: nat, row: Block)
    requires StateOk(st, slots, bs) && which < |st.base| && |row| == bs
    requires st.tags[slots.Of(which)] == NONE && st.base[which] == Some(row)
    ensures var hv := slots.Of(which);
      var st' := st.(tags := st.tags[hv := which], rows := st.rows[hv := row]);
      StateOk(st', slots, bs) && forall b :: 0 <= b < |st.base| ==> Seen(st', slots, b) == Seen(st, slots, b)
  {
    hide BitGet;
    var hv := slots.Of(which);
    var st' := st.(tags := st.tags[hv := which], rows := st.rows[hv := row]);
    forall k | 0 <= k < slots.size
      ensures SlotOk(st', slots, k)
    {
      assert SlotOk(st, slots, k);
    }
    forall b | 0 <= b < |st.base|
      ensures Seen(st', slots, b) == Seen(st, slots, b)
    {
      assert SlotOk(st, slots, slots.Of(b));
    }
  }

  /** The buffer of an empty slot means nothing. */
  lemma ScribbleKeeps(st: State, slots: Slots, bs: nat, hv: nat, row: Block)
    requires StateOk(st, slots, bs) && hv < slots.size && |row| == bs && st.tags[hv] == NONE
    ensures StateOk(st.(rows := st.rows[hv := row]), slots, bs)
    ensures forall b :: 0 <= b < |st.base| ==> Seen(st.(rows := st.rows[hv := row]), slots, b) == Seen(st, slots, b)
  {
    hide BitGet;
    var st' := st.(rows := st.rows[hv := row]);
    forall k | 0 <= k < slots.size
      ensures SlotOk(st', slots, k)
    {
      assert SlotOk(st, slots, k);
    }
  }

  /** Replacing a cached block changes what is seen of that block only. */
  lemma StoreChangesOne(st: State, slots: Slots, bs: nat, which: nat, row: Block)
    requires StateOk(st, slots, bs) && which < |st.base| && |row| == bs && st.tags[slots.Of(which)] == which
    ensures var hv := slots.Of(which);
      var st' := st.(rows := st.rows[hv := row], dirty := BitSet(st.dirty, hv));
      && StateOk(st', slots, bs)
      && forall b :: 0 <= b < |st.base| ==> Seen(st', slots, b) == if b == which then Some(row) else Seen(st, slots, b)
  {
    hide BitGet, BitSet;
    var hv := slots.Of(which);
    var st' := st.(rows := st.rows[hv := row], dirty := BitSet(st.dirty, hv));
    forall k | 0 <= k < slots.size
      ensures SlotOk(st', slots, k)
    {
      assert SlotOk(st, slots, k);
    }
  }

  lemma AroundChangesOne(st: State, slots: Slots, bs: nat, which: nat, v: Option<Block>)
    requires StateOk(st, slots, bs) && which < |st.base| && which !in st.tags
    ensures var st' := st.(base := st.base[which := v]);
      && StateOk(st', slots, bs)
      && forall b :: 0 <= b < |st.base| ==> Seen(st', slots, b) == if b == which then v else Seen(st, slots, b)
  {
    hide BitGet;
    var st' := st.(base := st.base[which := v]);
    forall k | 0 <= k < slots.size
      ensures SlotOk(st', slots, k)
    {
      assert SlotOk(st, slots, k);
      assert st.tags[k] in st.tags;
    }
  }

  class BlockCache {
    const base: Bdev
    const slots: Slots
    const data: array<byte>
    const indexes: array<nat>
    const dirty: array<byte>

    ghost predicate Wired()
      reads base
    {
      && slots.size > 0 && base.Valid() && base.Separate()
      && data.Length == slots.size * base.blockSize
      && indexes.Length == slots.size && dirty.Length == (slots.size + 7) / 8
      && data != dirty
    }

    ghost function Now(): (st: State)
      reads base, data, indexes, dirty
      requires Wired()
      ensures |st.base| == base.blockCount && |st.tags| == |st.rows| == slots.size && st.dirty == dirty[..]
      ensures st.base == ContentsOf(base)
    {
      State(indexes[..], Grid(data[..], base.blockSize, slots.size), dirty[..], ContentsOf(base))
    }

    ghost predicate Valid()
      reads base, data, indexes, dirty
    {
      Wired() && StateOk(Now(), slots, base.blockSize)
    }

    constructor Create(base: Bdev, limit: nat, hash: nat -> nat)
      requires base.Valid() && base.Separate() && limit >= 1 && base.blockCount <= NONE
      ensures Valid() && this.base == base && slots == Slots(limit, hash)
      ensures fresh(data) && fresh(indexes) && fresh(dirty) && forall hv :: 0 <= hv < indexes.Length ==>
        indexes[hv] == NONE
      ensures forall b :: 0 <= b < base.blockCount ==> Seen(Now(), slots, b) == base.View(b)
    {
      this.base, slots := base, Slots(limit, hash);
      data := new byte[limit * base.blockSize](_ => 0);
      indexes := new nat[limit](_ => NONE);
      dirty := new byte[(limit + 7) / 8](_ => 0);
      new;
      hide Bdev.View, Bdev.Valid, BitGet, Grid;
      NoneDirty(dirty[..]);
    }

    lemma NoneDirty(d: seq<byte>)
      requires forall k :: 0 <= k < |d| ==> d[k] == 0
      ensures forall j :: 0 <= j < 8 * |d| ==> !BitGet(d, j)
    {
      forall j | 0 <= j < 8 * |d|
        ensures !BitGet(d, j)
      {
        ZeroBit(j % 8);
      }
    }

    /** Writes a dirty slot back and empties it. A failed write is only logged. */
    method Evict(hv: nat) returns (ghost lost: set<nat>)
      requires Valid() && hv < slots.size
      modifies base, indexes, dirty
      ensures Valid() && indexes[..] == old(indexes[..])[hv := NONE]
      ensures SetBack(old(Now()), Now(), slots, lost) && lost <= {old(indexes[hv])}
      ensures base.reliable ==> lost == {}
      ensures dirty[..] == BitClear(old(dirty[..]), hv)
      ensures forall b: nat :: b < base.blockCount && b != old(indexes[hv]) ==>
        ContentsOf(base)[b] == old(ContentsOf(base))[b]
    {
      hide Bdev.View, Bdev.Valid, Bdev.Separate, BitGet, BitSet, BitClear, Grid, SlotOk, SetBack;
      ghost var st := Now();
      WriteBack(hv);
      ghost var base' := ContentsOf(base);
      lost := LostFrom(st, hv, base');
      ClearDirty(hv);
      indexes[hv] := NONE;
      assert indexes[..] == st.tags[hv := NONE];
      EvictOk(st, slots, base.blockSize, hv, base');
      EvictSetsBack(st, slots, base.blockSize, hv, base');
    }

    method WriteBack(hv: nat)
      requires Valid() && hv < slots.size
      modifies base
      ensures Wired() && WrittenBack(old(Now()), hv, ContentsOf(base))
      ensures base.reliable ==> LostFrom(old(Now()), hv, ContentsOf(base)) == {}
    {
      hide Bdev.View, Bdev.Valid, BitGet, Grid;
      ghost var st := Now();
      assert SlotOk(st, slots, hv);
      RowFits(base.blockSize, slots.size, hv);
      if BitGet(dirty[..], hv) {
        var row := Row(data[..], base.blockSize, hv);
        assert row == st.rows[hv] by { GridRow(data[..], base.blockSize, slots.size, hv); }
        var tag := indexes[hv];
        var ok := base.WriteBlock(tag, row);
        assert ContentsOf(base) == st.base[tag := base.View(tag)];
        assert ok ==> base.View(tag) == Some(row);
        assert st.base == st.base[tag := st.base[tag]];
      }
    }

    method ClearDirty(hv: nat)
      requires hv < 8 * dirty.Length
      modifies dirty
      ensures dirty[..] == BitClear(old(dirty[..]), hv)
    {
      hide BitGet, BitClear;
      var d := BitClear(dirty[..], hv);
      OneByte(dirty[..], hv);
      dirty[hv / 8] := d[hv / 8];
    }

    lemma OneByte(s: seq<byte>, i: nat)
      requires i < 8 * |s|
      ensures BitClear(s, i) == s[i / 8 := BitClear(s, i)[i / 8]]
      ensures BitSet(s, i) == s[i / 8 := BitSet(s, i)[i / 8]]
    {}

    method SetDirty(hv: nat)
      requires hv < 8 * dirty.Length
      modifies dirty
      ensures dirty[..] == BitSet(old(dirty[..]), hv)
    {
      hide BitGet, BitSet;
      var d := BitSet(dirty[..], hv);
      OneByte(dirty[..], hv);
      dirty[hv / 8] := d[hv / 8];
    }

    /** Brings a block into its slot. Fails exactly when the block is neither cached nor readable. The
        block that was there is written back; if that fails it is lost. */
    method ReadBlock(which: nat) returns (ok: bool, ghost lost: set<nat>)
      requires Valid() && which < base.blockCount
      modifies base, data, indexes, dirty
      ensures Valid()
      ensures ok == old(Seen(Now(), slots, which)).Some?
      ensures Seen(Now(), slots, which) == old(Seen(Now(), slots, which))
      ensures indexes[..] == old(indexes[..])[slots.Of(which) := if ok then which else NONE]
      ensures ok ==> indexes[slots.Of(which)] == which
      ensures SetBack(old(Now()), Now(), slots, lost) && lost <= {old(indexes[slots.Of(which)])} && which !in lost
      ensures base.reliable ==> lost == {}
      ensures dirty[..] == if old(indexes[slots.Of(which)]) == which then old(dirty[..])
                           else BitClear(old(dirty[..]), slots.Of(which))
      ensures forall b: nat :: b < base.blockCount && b != old(indexes[slots.Of(which)]) ==>
        ContentsOf(base)[b] == old(ContentsOf(base))[b]
    {
      hide Bdev.View, Bdev.Valid, BitGet, BitSet, BitClear, Grid, SlotOk;
      var hv := slots.Of(which);
      if indexes[hv] == which {
        NothingSetBack(Now(), slots);
        assert indexes[..] == old(indexes[..])[hv := which];
        return true, {};
      }
      ghost var st := Now();
      lost := Evict(hv);
      ghost var mid := Now();
      ok := Fill(which, hv);
      assert SetBack(st, Now(), slots, lost) by { SameOn(st, mid, Now(), slots, lost); }
    }

    method Fill(which: nat, hv: nat) returns (ok: bool)
      requires Valid() && which < base.blockCount && hv == slots.Of(which) && indexes[hv] == NONE
      modifies base`hashBlock, base`whichHashBlock, data, indexes
      ensures Valid() && ContentsOf(base) == old(ContentsOf(base))
      ensures ok == old(Seen(Now(), slots, which)).Some?
      ensures indexes[..] == old(indexes[..])[hv := if ok then which else NONE]
      ensures Same(old(Now()), Now(), slots)
    {
      hide Bdev.View, Bdev.Valid, BitGet, Grid;
      ghost var st := Now();
      RowFits(base.blockSize, slots.size, hv);
      ghost var before := data[..];
      ok := base.ReadBlock(which, data, hv * base.blockSize);
      assert ContentsOf(base) == st.base;
      ghost var row := Row(data[..], base.blockSize, hv);
      GridReplaceRow(before, data[..], base.blockSize, slots.size, hv);
      ScribbleKeeps(st, slots, base.blockSize, hv, row);
      if ok {
        indexes[hv] := which;
        assert indexes[..] == st.tags[hv := which];
        FillKeeps(st, slots, base.blockSize, which, row);
      }
    }

    /** The bytes of a cached block. */
    method CachedBlock(which: nat) returns (bl: Block)
      requires Valid() && which < base.blockCount && indexes[slots.Of(which)] == which
      ensures |bl| == base.blockSize && Seen(Now(), slots, which) == Some(bl)
    {
      hide Bdev.View, Bdev.Valid, Grid, SlotOk;
      var hv := slots.Of(which);
      RowFits(base.blockSize, slots.size, hv);
      bl := Row(data[..], base.blockSize, hv);
      GridRow(data[..], base.blockSize, slots.size, hv);
    }

    /** A block that is not cached may be written on the base directly. A failed write loses it, or
        leaves it. */
    method WriteAround(which: nat, from: Block) returns (ok: bool)
      requires Valid() && which < base.blockCount && |from| == base.blockSize && which !in indexes[..]
      modifies base
      ensures Valid() && (base.reliable ==> ok)
      ensures forall b :: 0 <= b < base.blockCount && b != which ==> Seen(Now(), slots, b) == old(Seen(Now(), slots, b))
      ensures if ok then Seen(Now(), slots, which) == Some(from)
              else Seen(Now(), slots, which) in {old(Seen(Now(), slots, which)), None}
      ensures base.Steady() && !ok ==> Seen(Now(), slots, which) == None
      ensures base.keeping && !base.verified && !ok ==> Seen(Now(), slots, which) == old(Seen(Now(), slots, which))
    {
      hide Bdev.View, Bdev.Valid, BitGet, Grid;
      ghost var st := Now();
      ok := base.WriteBlock(which, from);
      ghost var v := base.View(which);
      assert ContentsOf(base) == st.base[which := v];
      AroundChangesOne(st, slots, base.blockSize, which, v);
    }

    /** A block that is not cached is what the base holds. */
    method ReadAround(which: nat, into: array<byte>) returns (ok: bool)
      requires Valid() && which < base.blockCount && into.Length == base.blockSize && which !in indexes[..]
      requires into != data && into != dirty
      modifies base`hashBlock, base`whichHashBlock, into
      ensures Valid() && Now() == old(Now())
      ensures ok == Seen(Now(), slots, which).Some?
      ensures ok ==> Some(into[..]) == Seen(Now(), slots, which)
    {
      hide Bdev.View, Bdev.Valid, BitGet, Grid, SlotOk;
      assert Seen(Now(), slots, which) == ContentsOf(base)[which];
      ghost var c := ContentsOf(base);
      ok := base.ReadBlock(which, into, 0);
      assert ContentsOf(base) == c;
      if ok { assert into[0..base.blockSize] == into[..]; }
    }

    /** Overwrites a cached block. On a block that is not cached the tag is never set: the
        slot is left dirty with no block to write back to. */
    method WriteBlock(which: nat, from: Block)
      requires Valid() && which < base.blockCount && |from| == base.blockSize
      modifies base, data, indexes, dirty
      ensures Wired()
      ensures Valid() <==> old(indexes[slots.Of(which)]) == which
      ensures Valid() ==> indexes[..] == old(indexes[..]) && ContentsOf(base) == old(ContentsOf(base))
      ensures Valid() ==> dirty[..] == BitSet(old(dirty[..]), slots.Of(which))
      ensures Valid() ==> forall b :: 0 <= b < base.blockCount ==>
        Seen(Now(), slots, b) == if b == which then Some(from) else old(Seen(Now(), slots, b))
    {
      hide Bdev.View, Bdev.Valid, BitGet, BitSet, BitClear, Grid;
      var hv := slots.Of(which);
      ghost var st, cached := Now(), indexes[hv] == which;
      if indexes[hv] != which {
        var _ := Evict(hv);
      }
      SetRow(data, base.blockSize, slots.size, hv, from);
      SetDirty(hv);
      if cached {
        StoreChangesOne(st, slots, base.blockSize, which, from);
      } else {
        assert !SlotOk(Now(), slots, hv);
      }
    }

    /** Writes everything back and empties the cache. */
    method Flush() returns (ghost lost: set<nat>)
      requires Valid()
      modifies base, indexes, dirty
      ensures Valid() && SetBack(old(Now()), Now(), slots, lost) && (base.reliable ==> lost == {})
      ensures forall k :: 0 <= k < indexes.Length ==> indexes[k] == NONE
      ensures forall b :: 0 <= b < base.blockCount ==> ContentsOf(base)[b] == Seen(Now(), slots, b)
    {
      hide Bdev.View, Bdev.Valid, Bdev.Separate, BitGet, BitSet, BitClear, Grid, SlotOk, StateOk, SetBack;
      ghost var st := Now();
      lost := {};
      NothingSetBack(st, slots);
      for i := 0 to slots.size
        invariant Valid() && SetBack(st, Now(), slots, lost) && (base.reliable ==> lost == {})
        invariant forall b :: b in lost ==> slots.Of(b) < i
        invariant forall k :: 0 <= k < slots.size ==> indexes[k] == if k < i then NONE else st.tags[k]
        invariant forall k :: i <= k < slots.size ==> BitGet(dirty[..], k) == BitGet(st.dirty, k)
        invariant forall b: nat :: b < base.blockCount && slots.Of(b) >= i ==> ContentsOf(base)[b] == st.base[b]
      {
        ghost var mid := Now();
        TagAt(i);
        ClearFacts(dirty[..], i);
        ghost var more := Evict(i);
        SetBackOn(st, mid, Now(), slots, i, lost, more);
        lost := lost + more;
      }
      AllEvicted(Now(), slots, base.blockSize);
    }

    lemma TagAt(i: nat)
      requires Valid() && i < slots.size
      ensures indexes[i] == NONE || slots.Of(indexes[i]) == i
      ensures base.blockCount <= NONE
    {
      hide Bdev.View, Bdev.Valid, BitGet, Grid;
      assert SlotOk(Now(), slots, i);
    }

    method Clear() returns (ghost lost: set<nat>)
      requires Valid()
      modifies base, indexes, dirty
      ensures Valid() && SetBack(old(Now()), Now(), slots, lost) && (base.reliable ==> lost == {})
      ensures forall k :: 0 <= k < indexes.Length ==> indexes[k] == NONE
      ensures forall b :: 0 <= b < base.blockCount ==> ContentsOf(base)[b] == Seen(Now(), slots, b)
    {
      lost := Flush();
    }
  }

  lemma SameOn(a: State, b: State, c: State, slots: Slots, lost: set<nat>)
    requires Comparable(a, b, slots) && Comparable(b, c, slots)
    requires SetBack(a, b, slots, lost) && Same(b, c, slots)
    ensures SetBack(a, c, slots, lost)
  {
    hide DirtyIn;
  }

  lemma GridRow(s: seq<byte>, w: nat, rows: nat, k: nat)
    requires Sized(s, w, rows) && k < rows && k * w + w <= |s|
    ensures Grid(s, w, rows)[k] == Row(s, w, k)
  {}
}
