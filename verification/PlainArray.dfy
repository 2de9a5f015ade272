/** The reference every block device is measured against: an array of blocks, some of
    which may be unreadable, on which only successful writes leave a trace. */
module PlainArray {
  import opened Devices
  import opened Parity

  datatype Request =
    | Read(w: nat)
    | Write(w: nat, data: Block)
    /** Flushing, clearing caches, and whatever happens underneath. */
    | Maintain

  type Contents = seq<Option<Block>>

  function After(r: Request, out: Option<Block>, st: Contents): (st': Contents)
    ensures |st'| == |st|
  {
    if r.Write? && out.Some? && r.w < |st| then st[r.w := Some(r.data)] else st
  }

  function Replay(rs: seq<Request>, outs: seq<Option<Block>>, st: Contents): (st': Contents)
    requires |outs| == |rs|
    ensures |st'| == |st|
  {
    if rs == [] then st
    else
      var n := |rs| - 1;
      After(rs[n], outs[n], Replay(rs[..n], outs[..n], st))
  }

  /** A read that succeeds returns what the array holds. */
  ghost predicate Sound(r: Request, out: Option<Block>, st: Contents) {
    r.Read? && out.Some? ==> r.w < |st| && out == st[r.w]
  }

  /** Moreover, a read fails only where the array has nothing, and no write fails. */
  ghost predicate Exact(r: Request, out: Option<Block>, st: Contents) {
    && (r.Read? ==> r.w < |st| && out == st[r.w])
    && (r.Write? ==> out.Some?)
  }

  ghost predicate SoundRun(rs: seq<Request>, outs: seq<Option<Block>>, st: Contents) {
    && |outs| == |rs|
    && forall k :: 0 <= k < |rs| ==> Sound(rs[k], outs[k], Replay(rs[..k], outs[..k], st))
  }

  ghost predicate ExactRun(rs: seq<Request>, outs: seq<Option<Block>>, st: Contents) {
    && |outs| == |rs|
    && forall k :: 0 <= k < |rs| ==> Exact(rs[k], outs[k], Replay(rs[..k], outs[..k], st))
  }

  lemma ReplayStep(rs: seq<Request>, outs: seq<Option<Block>>, st: Contents, r: Request, out: Option<Block>)
    requires |outs| == |rs|
    ensures Replay(rs + [r], outs + [out], st) == After(r, out, Replay(rs, outs, st))
    ensures SoundRun(rs, outs, st) && Sound(r, out, Replay(rs, outs, st)) ==> SoundRun(rs + [r], outs + [out], st)
    ensures ExactRun(rs, outs, st) && Exact(r, out, Replay(rs, outs, st)) ==> ExactRun(rs + [r], outs + [out], st)
  {
    var rs', outs' := rs + [r], outs + [out];
    assert rs'[..|rs|] == rs && outs'[..|rs|] == outs;
    forall k | 0 <= k <= |rs|
      ensures Replay(rs'[..k], outs'[..k], st)
           == if k < |rs| then Replay(rs[..k], outs[..k], st) else Replay(rs, outs, st)
    {
      if k < |rs| { assert rs'[..k] == rs[..k] && outs'[..k] == outs[..k]; }
    }
    hide Replay, Sound, Exact;
  }

  lemma NothingYet(st: Contents)
    ensures Replay([], [], st) == st && SoundRun([], [], st) && ExactRun([], [], st)
  {}

  /** The array returns the last value written. */
  lemma {:induction false} LastWrite(rs: seq<Request>, outs: seq<Option<Block>>, st: Contents, k: nat)
    requires |outs| == |rs| && k < |rs| && rs[k].Write? && rs[k].w < |st| && outs[k].Some?
    requires forall j :: k < j < |rs| && rs[j].Write? && outs[j].Some? ==> rs[j].w != rs[k].w
    ensures Replay(rs, outs, st)[rs[k].w] == Some(rs[k].data)
    decreases |rs|
  {
    var n := |rs| - 1;
    if k < n { LastWrite(rs[..n], outs[..n], st, k); }
  }

  // ---- an array on which a block is lost when a write of it fails

  function FaultyAfter(r: Request, out: Option<Block>, st: Contents): (st': Contents)
    ensures |st'| == |st|
  {
    if r.Write? && out.None? && r.w < |st| then st[r.w := None] else After(r, out, st)
  }

  function FaultyReplay(rs: seq<Request>, outs: seq<Option<Block>>, st: Contents): (st': Contents)
    requires |outs| == |rs|
    ensures |st'| == |st|
  {
    if rs == [] then st
    else
      var n := |rs| - 1;
      FaultyAfter(rs[n], outs[n], FaultyReplay(rs[..n], outs[..n], st))
  }

  /** A read returns what the array holds, and fails where it holds nothing. */
  ghost predicate ReadsAre(r: Request, out: Option<Block>, st: Contents) {
    r.Read? ==> r.w < |st| && out == st[r.w]
  }

  ghost predicate FaultyRun(rs: seq<Request>, outs: seq<Option<Block>>, st: Contents) {
    && |outs| == |rs|
    && forall k :: 0 <= k < |rs| ==> ReadsAre(rs[k], outs[k], FaultyReplay(rs[..k], outs[..k], st))
  }

  lemma FaultyStep(rs: seq<Request>, outs: seq<Option<Block>>, st: Contents, r: Request, out: Option<Block>)
    requires FaultyRun(rs, outs, st) && ReadsAre(r, out, FaultyReplay(rs, outs, st))
    ensures FaultyReplay(rs + [r], outs + [out], st) == FaultyAfter(r, out, FaultyReplay(rs, outs, st))
    ensures FaultyRun(rs + [r], outs + [out], st)
  {
    var rs', outs' := rs + [r], outs + [out];
    assert rs'[..|rs|] == rs && outs'[..|rs|] == outs;
    forall k | 0 <= k <= |rs|
      ensures FaultyReplay(rs'[..k], outs'[..k], st)
           == if k < |rs| then FaultyReplay(rs[..k], outs[..k], st) else FaultyReplay(rs, outs, st)
    {
      if k < |rs| { assert rs'[..k] == rs[..k] && outs'[..k] == outs[..k]; }
    }
    hide FaultyReplay, ReadsAre;
  }

  /** It shows what the plain array does, or nothing; and the same while no write fails. */
  lemma {:induction false} FaultyShowsLess(rs: seq<Request>, outs: seq<Option<Block>>, st: Contents)
    requires |outs| == |rs|
    ensures forall w :: 0 <= w < |st| ==> FaultyReplay(rs, outs, st)[w] in {Replay(rs, outs, st)[w], None}
    ensures (forall k :: 0 <= k < |rs| && rs[k].Write? ==> outs[k].Some?) ==>
      FaultyReplay(rs, outs, st) == Replay(rs, outs, st)
    decreases |rs|
  {
    if rs != [] { FaultyShowsLess(rs[..|rs| - 1], outs[..|rs| - 1], st); }
  }

  /** So its runs are sound, and exact when no write fails. */
  lemma FaultyIsSound(rs: seq<Request>, outs: seq<Option<Block>>, st: Contents)
    requires FaultyRun(rs, outs, st)
    ensures SoundRun(rs, outs, st)
    ensures (forall k :: 0 <= k < |rs| && rs[k].Write? ==> outs[k].Some?) ==> ExactRun(rs, outs, st)
  {
    forall k | 0 <= k < |rs|
      ensures Sound(rs[k], outs[k], Replay(rs[..k], outs[..k], st))
      ensures (forall j :: 0 <= j < |rs| && rs[j].Write? ==> outs[j].Some?) ==>
        Exact(rs[k], outs[k], Replay(rs[..k], outs[..k], st))
    {
      FaultyShowsLess(rs[..k], outs[..k], st);
    }
  }
}
