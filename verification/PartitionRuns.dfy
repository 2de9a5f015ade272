/** Whole runs of requests against one partition. */
module PartitionRuns {
  import opened Bits
  import opened Crc
  import opened Devices
  import opened Parity
  import opened Partitioning
  import opened PlainArray
  import opened ThinMap
  import opened VerifyDevice

  ghost function ShownTo(l: Layout, d: Contents, offset: nat, k: nat): (c: Contents)
    requires Sane(l, d) && offset + k <= l.mapped
    ensures |c| == k && forall w :: 0 <= w < k ==> c[w] == ThinView(l, d, offset + w)
  {
    if k == 0 then [] else ShownTo(l, d, offset, k - 1) + [ThinView(l, d, offset + k - 1)]
  }

  ghost predicate Working(p: Partition)
    reads p, p.base, p.bitmapBlock, p.mapBlock
  {
    p.Valid() && p.Wired() && p.base.reliable && Sane(p.layout, p.Disk()) && MetaReadable(p.layout, p.Disk())
  }

  ghost function Shown(p: Partition): (c: Contents)
    reads p, p.base, p.bitmapBlock, p.mapBlock
    requires Working(p)
    ensures |c| == p.blockCount
    ensures forall w :: 0 <= w < p.blockCount ==> c[w] == ThinView(p.layout, p.Disk(), p.offset + w)
  {
    ShownTo(p.layout, p.Disk(), p.offset, p.blockCount)
  }

  /** A device whose map is empty shows zeros everywhere. */
  lemma EmptyShowsZeros(p: Partition)
    requires Working(p) && forall i :: 0 <= i < p.layout.mapped ==> Entry(p.layout, p.Disk(), i) == Some(0)
    ensures forall w :: 0 <= w < p.blockCount ==> Shown(p)[w] == Some(Zeros(p.layout.bs))
  {
    hide Entry, Zeros;
  }

  ghost predicate Fits(r: Request, p: Partition) {
    match r
    case Read(w) => w < p.blockCount
    case Write(w, data) => w < p.blockCount && |data| == p.layout.bs
    case Maintain => true
  }

  // ---- the reference: an array whose blocks come out of a common stock

  /** What is shown, which blocks have been given storage, and how much storage is left. */
  datatype Thin = Thin(shown: Contents, mapped: set<nat>, free: nat)

  /** A write is refused exactly when its block is new and there is no storage left. */
  function Answer(t: Thin, r: Request): Option<Block> {
    match r
    case Read(w) => if w < |t.shown| then t.shown[w] else None
    case Write(w, data) => if w in t.mapped || t.free > 0 then Some(data) else None
    case Maintain => None
  }

  function Next(t: Thin, r: Request): Thin {
    if r.Write? && r.w < |t.shown| && Answer(t, r).Some? then
      Thin(t.shown[r.w := Some(r.data)], t.mapped + {r.w}, if r.w in t.mapped then t.free else t.free - 1)
    else t
  }

  function Ends(t: Thin, rs: seq<Request>): (t': Thin)
    ensures |t'.shown| == |t.shown|
  {
    if rs == [] then t else Next(Ends(t, rs[..|rs| - 1]), rs[|rs| - 1])
  }

  function Answers(t: Thin, rs: seq<Request>): (outs: seq<Option<Block>>)
    ensures |outs| == |rs|
  {
    if rs == [] then [] else Answers(t, rs[..|rs| - 1]) + [Answer(Ends(t, rs[..|rs| - 1]), rs[|rs| - 1])]
  }

  ghost predicate InRange(r: Request, t: Thin) { r.Maintain? || r.w < |t.shown| }

  /** But for the refused writes this is the plain array. */
  lemma {:induction false} ThinIsPlain(t: Thin, rs: seq<Request>)
    requires forall k :: 0 <= k < |rs| ==> InRange(rs[k], t)
    ensures SoundRun(rs, Answers(t, rs), t.shown)
    ensures Ends(t, rs).shown == Replay(rs, Answers(t, rs), t.shown)
  {
    hide SoundRun, ExactRun, Replay;
    NothingYet(t.shown);
    if rs != [] {
      var n := |rs| - 1;
      ThinIsPlain(t, rs[..n]);
      assert rs == rs[..n] + [rs[n]];
      assert InRange(rs[n], t);
      ReplayStep(rs[..n], Answers(t, rs[..n]), t.shown, rs[n], Answer(Ends(t, rs[..n]), rs[n]));
    }
  }

  /** The blocks that are written. */
  function Touched(rs: seq<Request>): set<nat> {
    if rs == [] then {}
    else Touched(rs[..|rs| - 1]) + if rs[|rs| - 1].Write? then {rs[|rs| - 1].w} else {}
  }

  /** The storage that is used is that of the new blocks. */
  lemma {:induction false} StockUsed(t: Thin, rs: seq<Request>)
    requires forall k :: 0 <= k < |rs| ==> InRange(rs[k], t)
    requires |Touched(rs) - t.mapped| <= t.free
    ensures Ends(t, rs).mapped == t.mapped + Touched(rs)
    ensures Ends(t, rs).free == t.free - |Touched(rs) - t.mapped|
  {
    if rs == [] {
      assert Touched(rs) - t.mapped == {};
    } else {
      var n := |rs| - 1;
      assert rs == rs[..n] + [rs[n]] && InRange(rs[n], t);
      NewlyTouched(t, rs[..n], rs[n]);
      StockUsed(t, rs[..n]);
    }
  }

  lemma {:induction false} AnswersAt(t: Thin, rs: seq<Request>, k: nat)
    requires k < |rs|
    ensures Answers(t, rs)[k] == Answer(Ends(t, rs[..k]), rs[k])
    decreases |rs|
  {
    hide Answer, Ends;
    var n := |rs| - 1;
    if k < n {
      AnswersAt(t, rs[..n], k);
      assert rs[..n][..k] == rs[..k];
    }
  }

  lemma {:induction false} TouchedPrefix(rs: seq<Request>, k: nat)
    requires k <= |rs|
    ensures Touched(rs[..k]) <= Touched(rs)
    decreases |rs|
  {
    if k < |rs| {
      TouchedPrefix(rs[..|rs| - 1], k);
      assert rs[..|rs| - 1][..k] == rs[..k];
    } else {
      assert rs[..k] == rs;
    }
  }

  /** No write is refused as long as the new blocks fit into what is left. */
  lemma RoomForAll(t: Thin, rs: seq<Request>, k: nat)
    requires forall k :: 0 <= k < |rs| ==> InRange(rs[k], t)
    requires |Touched(rs) - t.mapped| <= t.free && k < |rs| && rs[k].Write?
    ensures Answers(t, rs)[k] == Some(rs[k].data)
  {
    hide Answers, Touched, Ends;
    var was := rs[..k];
    AnswersAt(t, rs, k);
    assert rs[..k + 1] == was + [rs[k]];
    NewlyTouched(t, was, rs[k]);
    TouchedPrefix(rs, k + 1);
    SmallerSet(Touched(rs[..k + 1]) - t.mapped, Touched(rs) - t.mapped);
    StockUsed(t, was);
  }

  lemma SmallerSet(a: set<nat>, b: set<nat>)
    requires a <= b
    ensures |a| <= |b|
  {
    assert b == a + (b - a);
  }

  lemma NewlyTouched(t: Thin, rs: seq<Request>, r: Request)
    ensures Touched(rs + [r]) == Touched(rs) + if r.Write? then {r.w} else {}
    ensures |Touched(rs + [r]) - t.mapped| == |Touched(rs) - t.mapped|
      + if r.Write? && r.w !in t.mapped && r.w !in Touched(rs) then 1 else 0
  {
    assert (rs + [r])[..|rs|] == rs;
    var a, b := Touched(rs) - t.mapped, Touched(rs + [r]) - t.mapped;
    if r.Write? && r.w !in t.mapped && r.w !in Touched(rs) {
      assert b == a + {r.w};
    } else {
      assert b == a;
    }
  }

  // ---- the partition as such an array

  ghost function MappedTo(l: Layout, d: Contents, offset: nat, k: nat): set<nat>
    requires SizedDisk(l, d) && offset + k <= l.mapped
  {
    set w: nat | w < k && IsMapped(l, d, offset, w)
  }

  ghost predicate IsMapped(l: Layout, d: Contents, offset: nat, w: nat)
    requires SizedDisk(l, d) && offset + w < l.mapped
  {
    Points(Entry(l, d, offset + w))
  }

  ghost function FreeBlocks(l: Layout, d: Contents): set<nat>
    requires SizedDisk(l, d)
  {
    set b: nat | 1 <= b < l.total && Free(l, d, b)
  }

  ghost function ThinAt(l: Layout, d: Contents, offset: nat, n: nat): Thin
    requires Sane(l, d) && offset + n <= l.mapped
  {
    Thin(ShownTo(l, d, offset, n), MappedTo(l, d, offset, n), |FreeBlocks(l, d)|)
  }

  ghost function ThinOf(p: Partition): (t: Thin)
    reads p, p.base, p.bitmapBlock, p.mapBlock
    requires Working(p)
    ensures t.shown == Shown(p)
  {
    ThinAt(p.layout, p.Disk(), p.offset, p.blockCount)
  }

  /** Entries of the map that belong to other partitions show what they showed. */
  ghost predicate Isolated(l: Layout, d: Contents, d': Contents, offset: nat, n: nat)
    requires Sane(l, d) && Sane(l, d')
  {
    forall j :: 0 <= j < l.mapped && !(offset <= j < offset + n) ==> ThinView(l, d', j) == ThinView(l, d, j)
  }

  lemma RoomIsFree(l: Layout, d: Contents)
    requires SizedDisk(l, d)
    ensures Room(l, d) <==> |FreeBlocks(l, d)| > 0
  {
    hide Free;
    if Room(l, d) {
      var b: nat :| 1 <= b < l.total && Free(l, d, b);
      assert b in FreeBlocks(l, d);
    }
    if |FreeBlocks(l, d)| > 0 {
      var b :| b in FreeBlocks(l, d);
    }
  }

  /** A write without failures is a step of the reference. */
  lemma WriteIsNext(l: Layout, d: Contents, d': Contents, offset: nat, n: nat, w: nat, data: Block, ok: bool)
    requires Sane(l, d) && Sane(l, d') && w < n && offset + n <= l.mapped
    requires Wrote(l, d, d', offset + w, ok, true) && MetaReadable(l, d)
    requires ok ==> ThinView(l, d', offset + w) == Some(data)
    ensures ThinAt(l, d', offset, n) == Next(ThinAt(l, d, offset, n), Write(w, data))
    ensures (if ok then Some(data) else None) == Answer(ThinAt(l, d, offset, n), Write(w, data))
    ensures Isolated(l, d, d', offset, n)
  {
    hide Entry, Free, ThinView, Sane, Disjoint, MetaReadable, Room;
    SaneIsDisjoint(l, d);
    SaneIsDisjoint(l, d');
    RoomIsFree(l, d);
    assert w in MappedTo(l, d, offset, n) <==> IsMapped(l, d, offset, w);
    if ok {
      assert ShownTo(l, d', offset, n) == ShownTo(l, d, offset, n)[w := Some(data)];
      assert MappedTo(l, d', offset, n) == MappedTo(l, d, offset, n) + {w};
      FreeShrinks(l, d, d', offset + w);
    }
  }

  lemma FreeShrinks(l: Layout, d: Contents, d': Contents, i: nat)
    requires Sane(l, d) && Sane(l, d') && i < l.mapped && FreeAfter(l, d, d', i)
    ensures |FreeBlocks(l, d')| == if Points(Entry(l, d, i)) then |FreeBlocks(l, d)| else |FreeBlocks(l, d)| - 1
    ensures !Points(Entry(l, d, i)) ==> |FreeBlocks(l, d)| > 0
  {
    hide Free, Entry;
    var b := Entry(l, d', i).value;
    if Entry(l, d, i) == Some(0) {
      assert b in FreeBlocks(l, d);
      assert FreeBlocks(l, d') == FreeBlocks(l, d) - {b};
    } else {
      assert !Leaks(l, d, i);
      assert FreeBlocks(l, d') == FreeBlocks(l, d);
    }
  }

  method Serve(p: Partition, r: Request, buf: array<byte>) returns (out: Option<Block>)
    requires Working(p) && Fits(r, p) && buf.Length == p.layout.bs && buf != p.bitmapBlock && buf != p.mapBlock
    modifies p, p.base, p.bitmapBlock, p.mapBlock, buf
    ensures Working(p) && Isolated(p.layout, old(p.Disk()), p.Disk(), p.offset, p.blockCount)
    ensures ThinOf(p) == Next(old(ThinOf(p)), r)
    ensures out == Answer(old(ThinOf(p)), r)
  {
    hide Bdev.View, Bdev.Valid, ContentsOf, Partition.Disk, Entry, Free, Sane, Disjoint, MetaReadable, ThinView;
    hide Room, Wrote, Leaks;
    out := None;
    ghost var d := p.Disk();
    SaneIsDisjoint(p.layout, d);
    match r
    case Read(w) =>
      var ok := p.ReadBlock(w, buf);
      if ok { out := Some(buf[..]); }
      assert Shown(p)[w] == ThinView(p.layout, d, p.offset + w);
    case Write(w, data) =>
      var ok := p.WriteBlock(w, data);
      if ok { out := Some(data); }
      WroteReadable(p.layout, d, p.Disk(), p.offset + w, ok);
      WriteIsNext(p.layout, d, p.Disk(), p.offset, p.blockCount, w, data, ok);
    case Maintain =>
      p.ClearCaches();
  }

  lemma WroteReadable(l: Layout, d: Contents, d': Contents, i: nat, ok: bool)
    requires Disjoint(l, d) && Disjoint(l, d') && i < l.mapped && Wrote(l, d, d', i, ok, true) && MetaReadable(l, d)
    ensures MetaReadable(l, d')
  {
    hide Entry, Free, ThinView;
  }

  /** On a base that never fails every answer is determined: a partition is an array of blocks that
      takes its storage from a common stock, and no other partition is touched. */
  method ServeAll(p: Partition, rs: seq<Request>, buf: array<byte>) returns (outs: seq<Option<Block>>)
    requires Working(p) && buf.Length == p.layout.bs && buf != p.bitmapBlock && buf != p.mapBlock
    requires forall k :: 0 <= k < |rs| ==> Fits(rs[k], p)
    modifies p, p.base, p.bitmapBlock, p.mapBlock, buf
    ensures Working(p) && Isolated(p.layout, old(p.Disk()), p.Disk(), p.offset, p.blockCount)
    ensures outs == Answers(old(ThinOf(p)), rs)
    ensures ThinOf(p) == Ends(old(ThinOf(p)), rs)
  {
    hide Bdev.View, Bdev.Valid, ContentsOf, Partition.Disk, Partition.Valid, Entry, Free, Sane, Disjoint;
    hide MetaReadable, ThinView, ThinAt, Room;
    hide Next, Answer;
    ghost var initial, d := ThinOf(p), p.Disk();
    outs := [];
    assert rs[..0] == [];
    for k := 0 to |rs|
      invariant Working(p) && Isolated(p.layout, d, p.Disk(), p.offset, p.blockCount)
      invariant outs == Answers(initial, rs[..k]) && ThinOf(p) == Ends(initial, rs[..k])
    {
      var out := Serve(p, rs[k], buf);
      assert rs[..k + 1][..k] == rs[..k];
      outs := outs + [out];
    }
    assert rs[..|rs|] == rs;
  }

  // ---- runs on a base whose writes may fail, losing the block

  /** What was last written, and where a write has failed since. */
  datatype Known = Known(shown: Contents, doubtful: set<nat>)

  function Learn(t: Known, r: Request, out: Option<Block>): (t': Known)
    ensures |t'.shown| == |t.shown|
  {
    if !r.Write? || r.w >= |t.shown| then t
    else if out.None? then t.(doubtful := t.doubtful + {r.w})
    else Known(t.shown[r.w := Some(r.data)], t.doubtful - {r.w})
  }

  function LearnAll(t: Known, rs: seq<Request>, outs: seq<Option<Block>>): (t': Known)
    requires |outs| == |rs|
    ensures |t'.shown| == |t.shown|
  {
    if rs == [] then t
    else
      var n := |rs| - 1;
      Learn(LearnAll(t, rs[..n], outs[..n]), rs[n], outs[n])
  }

  /** A read that succeeds returns what was last written, unless a write has failed since. */
  ghost predicate Trusted(t: Known, r: Request, out: Option<Block>) {
    r.Read? && out.Some? && r.w !in t.doubtful ==> r.w < |t.shown| && out == t.shown[r.w]
  }

  ghost predicate TrustedRun(t: Known, rs: seq<Request>, outs: seq<Option<Block>>) {
    && |outs| == |rs|
    && forall k :: 0 <= k < |rs| ==> Trusted(LearnAll(t, rs[..k], outs[..k]), rs[k], outs[k])
  }

  lemma TrustedStep(t: Known, rs: seq<Request>, outs: seq<Option<Block>>, r: Request, out: Option<Block>)
    requires TrustedRun(t, rs, outs) && Trusted(LearnAll(t, rs, outs), r, out)
    ensures TrustedRun(t, rs + [r], outs + [out])
    ensures LearnAll(t, rs + [r], outs + [out]) == Learn(LearnAll(t, rs, outs), r, out)
  {
    var rs', outs' := rs + [r], outs + [out];
    assert rs'[..|rs|] == rs && outs'[..|rs|] == outs;
    forall k | 0 <= k <= |rs|
      ensures LearnAll(t, rs'[..k], outs'[..k])
           == if k < |rs| then LearnAll(t, rs[..k], outs[..k]) else LearnAll(t, rs, outs)
    {
      if k < |rs| { assert rs'[..k] == rs[..k] && outs'[..k] == outs[..k]; }
    }
    hide LearnAll, Trusted;
  }

  ghost predicate Abides(l: Layout, d: Contents, offset: nat, n: nat, t: Known)
    requires Sane(l, d) && offset + n <= l.mapped
  {
    |t.shown| == n && forall w: nat :: w < n && w !in t.doubtful ==> ThinView(l, d, offset + w) in {t.shown[w], None}
  }

  /** Entries that belong to other partitions show what they showed, or nothing. */
  ghost predicate Fading(l: Layout, d: Contents, d': Contents, offset: nat, n: nat)
    requires Sane(l, d) && Sane(l, d')
  {
    forall j :: 0 <= j < l.mapped && !(offset <= j < offset + n) ==> ThinView(l, d', j) in {ThinView(l, d, j), None}
  }

  /** What a request does to the disk: a read returns just what is shown, and a write what `Wrote`
      says, being refused only when it is hindered. */
  ghost predicate DiskStep(l: Layout, d: Contents, offset: nat, r: Request, out: Option<Block>, d': Contents) {
    && Sane(l, d) && Sane(l, d')
    && match r
       case Read(w) => offset + w < l.mapped && d' == d && out == ThinView(l, d, offset + w)
       case Write(w, data) =>
         && offset + w < l.mapped && Wrote(l, d, d', offset + w, out.Some?, false)
         && if out.Some? then ThinView(l, d', offset + w) == Some(data) else Hindered(l, d, d', offset + w)
       case Maintain => d' == d
  }

  ghost predicate DiskSteps(l: Layout, offset: nat, trace: seq<Contents>, rs: seq<Request>, outs: seq<Option<Block>>) {
    && |trace| == |rs| + 1 == |outs| + 1
    && forall k :: 0 <= k < |rs| ==> DiskStep(l, trace[k], offset, rs[k], outs[k], trace[k + 1])
  }

  lemma DiskStepsOn(l: Layout, offset: nat, trace: seq<Contents>, rs: seq<Request>, outs: seq<Option<Block>>,
                    r: Request, out: Option<Block>, d: Contents)
    requires DiskSteps(l, offset, trace, rs, outs) && DiskStep(l, trace[|rs|], offset, r, out, d)
    ensures DiskSteps(l, offset, trace + [d], rs + [r], outs + [out])
  {
    hide DiskStep;
  }

  ghost predicate Usable(p: Partition)
    reads p, p.base, p.bitmapBlock, p.mapBlock
  {
    p.Valid() && p.Wired() && p.base.Erases() && Sane(p.layout, p.Disk())
  }

  lemma WroteAbides(l: Layout, d: Contents, d': Contents, offset: nat, n: nat, t: Known, w: nat, data: Block, ok: bool)
    requires Sane(l, d) && Sane(l, d') && offset + n <= l.mapped && w < n
    requires Abides(l, d, offset, n, t) && OthersWeaker(l, d, d', offset + w)
    requires ok ==> ThinView(l, d', offset + w) == Some(data)
    ensures Abides(l, d', offset, n, Learn(t, Write(w, data), if ok then Some(data) else None))
    ensures Fading(l, d, d', offset, n)
  {
    hide Entry, Free, ThinView, Sane;
  }

  method ServeOne(p: Partition, r: Request, buf: array<byte>, ghost t: Known) returns (out: Option<Block>)
    requires Usable(p) && Fits(r, p) && buf.Length == p.layout.bs && buf != p.bitmapBlock && buf != p.mapBlock
    requires Abides(p.layout, p.Disk(), p.offset, p.blockCount, t)
    modifies p, p.base, p.bitmapBlock, p.mapBlock, buf
    ensures Usable(p) && Fading(p.layout, old(p.Disk()), p.Disk(), p.offset, p.blockCount)
    ensures Abides(p.layout, p.Disk(), p.offset, p.blockCount, Learn(t, r, out)) && Trusted(t, r, out)
    ensures DiskStep(p.layout, old(p.Disk()), p.offset, r, out, p.Disk())
  {
    hide Bdev.View, Bdev.Valid, ContentsOf, Partition.Disk, Entry, Free, Sane, Disjoint, ThinView, Leaks, Hindered;
    hide MetaReadable, Faultless, FreeAfter, Landed;
    out := None;
    ghost var d := p.Disk();
    SaneIsDisjoint(p.layout, d);
    match r
    case Read(w) =>
      var ok := p.ReadBlock(w, buf);
      if ok { out := Some(buf[..]); }
    case Write(w, data) =>
      var ok := p.WriteBlock(w, data);
      if ok { out := Some(data); }
      WroteAbides(p.layout, d, p.Disk(), p.offset, p.blockCount, t, w, data, ok);
    case Maintain =>
      p.ClearCaches();
  }

  /** Whatever I/O fails: a read that succeeds returns what was last written, or what was shown at
      the beginning, unless a write of that block has failed since; no data block comes to be in use
      twice, nor is one in use marked free; and other partitions show what they did, or nothing. The
      trace of the disk says what every read returned and why a write was refused. */
  method ServeFailing(p: Partition, rs: seq<Request>, buf: array<byte>)
      returns (outs: seq<Option<Block>>, ghost trace: seq<Contents>)
    requires Usable(p) && buf.Length == p.layout.bs && buf != p.bitmapBlock && buf != p.mapBlock
    requires forall k :: 0 <= k < |rs| ==> Fits(rs[k], p)
    modifies p, p.base, p.bitmapBlock, p.mapBlock, buf
    ensures Usable(p) && Fading(p.layout, old(p.Disk()), p.Disk(), p.offset, p.blockCount)
    ensures DiskSteps(p.layout, p.offset, trace, rs, outs) && trace[0] == old(p.Disk()) && trace[|rs|] == p.Disk()
    ensures var t := Known(ShownTo(p.layout, old(p.Disk()), p.offset, p.blockCount), {});
      && TrustedRun(t, rs, outs)
      && Abides(p.layout, p.Disk(), p.offset, p.blockCount, LearnAll(t, rs, outs))
  {
    hide Bdev.View, Bdev.Valid, ContentsOf, Partition.Disk, Partition.Valid, Entry, Free, Sane, Disjoint, ThinView;
    hide Trusted, TrustedRun, Learn, Bdev.Erases, DiskStep, DiskSteps;
    ghost var t, d := Known(ShownTo(p.layout, p.Disk(), p.offset, p.blockCount), {}), p.Disk();
    outs, trace := [], [d];
    NothingLearned(t);
    NoDiskSteps(p.layout, p.offset, d);
    assert rs[..0] == [];
    for k := 0 to |rs|
      invariant Usable(p) && Fading(p.layout, d, p.Disk(), p.offset, p.blockCount)
      invariant TrustedRun(t, rs[..k], outs) && |outs| == k && DiskSteps(p.layout, p.offset, trace, rs[..k], outs)
      invariant |trace| == k + 1 && trace[0] == d && trace[k] == p.Disk()
      invariant Abides(p.layout, p.Disk(), p.offset, p.blockCount, LearnAll(t, rs[..k], outs))
    {
      ghost var so := LearnAll(t, rs[..k], outs);
      var out := ServeOne(p, rs[k], buf, so);
      TrustedStep(t, rs[..k], outs, rs[k], out);
      DiskStepsOn(p.layout, p.offset, trace, rs[..k], outs, rs[k], out, p.Disk());
      assert rs[..k + 1] == rs[..k] + [rs[k]];
      outs, trace := outs + [out], trace + [p.Disk()];
    }
    assert rs[..|rs|] == rs;
  }

  lemma NoDiskSteps(l: Layout, offset: nat, d: Contents)
    ensures DiskSteps(l, offset, [d], [], [])
  {}

  lemma NothingLearned(t: Known)
    ensures TrustedRun(t, [], []) && LearnAll(t, [], []) == t
  {}
}
