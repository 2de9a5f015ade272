/** What happens to the devices of an array, step by step, as values. */
module Happenings {
  import opened Devices
  import opened Parity

  datatype Happening =
    | Wrote(i: nat, s: nat, part: Block, fault: Fault)
    | Fetched(i: nat, s: nat)
    | Dropped(i: nat)

  /** The step can be taken. */
  ghost predicate LegalAt(devs: seq<Dev>, e: Happening) {
    && e.i < |devs|
    && match e
       case Wrote(i, s, part, fault) => Has(devs[i], s) && CanHappen(devs[i].cfg, fault) && |part| == devs[i].cfg.bs
       case Fetched(i, s) => Has(devs[i], s)
       case Dropped(i) => true
  }

  ghost function Taken(devs: seq<Dev>, e: Happening): seq<Dev>
    requires LegalAt(devs, e)
  {
    match e
    case Wrote(i, s, part, fault) => devs[i := AfterWrite(devs[i], s, part, fault)]
    case Fetched(i, s) => devs[i := AfterRead(devs[i], s)]
    case Dropped(i) => devs[i := AfterClear(devs[i])]
  }

  /** No block of the first slices comes to show anything but what was last written there: a write
      that failed has left nothing that passes for the new block, and nothing comes back. */
  ghost predicate GoodAt(devs: seq<Dev>, e: Happening, slices: nat)
    requires LegalAt(devs, e)
  {
    match e
    case Wrote(i, s, part, fault) =>
      && (fault.Fine? || !StaleIn(AfterWrite(devs[i], s, part, fault), s, part))
      && forall t: nat :: t < slices && t != s ==> !RevivesIn(devs[i], s, t)
    case Fetched(i, s) => forall t: nat :: t < slices ==> !ResurfacesIn(devs[i], s, t)
    case Dropped(i) => forall t: nat :: t < slices ==> !SurfacesIn(devs[i], t)
  }

  /** What there is to do: write the rows out to the slice pend, or read the slice home and write what
      it is missing; without a slice to read, caches may be dropped. */
  datatype Duty = Duty(pend: nat, rows: seq<Block>, home: nat)

  ghost predicate DueAt(devs: seq<Dev>, e: Happening, duty: Duty)
    requires LegalAt(devs, e)
  {
    match e
    case Wrote(i, s, part, fault) =>
      || (s == duty.pend && i < |duty.rows| && part == duty.rows[i])
      || (s == duty.home && ViewIn(devs[i], s).None?)
    case Fetched(i, s) => s == duty.home
    case Dropped(i) => duty.home == NONE
  }

  ghost predicate Legal(devs: seq<Dev>, es: seq<Happening>)
    decreases |es|, 0
  {
    es == [] || (Legal(devs, es[..|es| - 1]) && LegalAt(AfterAll(devs, es[..|es| - 1]), es[|es| - 1]))
  }

  ghost function AfterAll(devs: seq<Dev>, es: seq<Happening>): (devs': seq<Dev>)
    requires Legal(devs, es)
    ensures |devs'| == |devs|
    decreases |es|, 1
  {
    if es == [] then devs else Taken(AfterAll(devs, es[..|es| - 1]), es[|es| - 1])
  }

  ghost predicate Good(devs: seq<Dev>, es: seq<Happening>, slices: nat)
    requires Legal(devs, es)
    decreases |es|
  {
    es == [] || (Good(devs, es[..|es| - 1], slices) && GoodAt(AfterAll(devs, es[..|es| - 1]), es[|es| - 1], slices))
  }

  ghost predicate Due(devs: seq<Dev>, es: seq<Happening>, duty: Duty)
    requires Legal(devs, es)
    decreases |es|
  {
    es == [] || (Due(devs, es[..|es| - 1], duty) && DueAt(AfterAll(devs, es[..|es| - 1]), es[|es| - 1], duty))
  }

  /** The steps lead from a to b, there was cause for every write, and h' is what they leave of h. */
  ghost predicate Told(a: seq<Dev>, es: seq<Happening>, b: seq<Dev>, h: bool, h': bool, slices: nat, duty: Duty) {
    && Legal(a, es) && b == AfterAll(a, es) && Due(a, es, duty)
    && (h' <==> h && Good(a, es, slices))
  }

  /** How many writes to slice s have failed. */
  function FailedAt(es: seq<Happening>, s: nat): nat {
    if es == [] then 0
    else
      var e := es[|es| - 1];
      FailedAt(es[..|es| - 1], s) + if e.Wrote? && e.s == s && !e.fault.Fine? then 1 else 0
  }

  lemma FailedOne(e: Happening, s: nat)
    ensures FailedAt([e], s) == if e.Wrote? && e.s == s && !e.fault.Fine? then 1 else 0
  {
    assert [e][..0] == [];
  }

  lemma {:induction false} FailedOn(es: seq<Happening>, fs: seq<Happening>, s: nat)
    ensures FailedAt(es + fs, s) == FailedAt(es, s) + FailedAt(fs, s)
    decreases |fs|
  {
    if fs == [] {
      assert es + fs == es;
    } else {
      FailedOn(es, fs[..|fs| - 1], s);
      assert (es + fs)[..|es + fs| - 1] == es + fs[..|fs| - 1];
    }
  }

  /** The only slice that may have been written without success is s. */
  ghost predicate FailedOnlyAt(es: seq<Happening>, s: nat) { forall t: nat :: t != s ==> FailedAt(es, t) == 0 }

  lemma FailedOnlyOn(es: seq<Happening>, fs: seq<Happening>, s: nat)
    requires FailedOnlyAt(es, s) && FailedOnlyAt(fs, s)
    ensures FailedOnlyAt(es + fs, s)
  {
    forall t: nat | t != s
      ensures FailedAt(es + fs, t) == 0
    {
      FailedOn(es, fs, t);
    }
  }

  // ---- the order of things

  ghost predicate IsWrite(e: Happening, i: nat, s: nat, part: Block) {
    e.Wrote? && e.i == i && e.s == s && e.part == part
  }

  /** Row after row has been written to slice s of device after device. */
  ghost predicate Writes(es: seq<Happening>, s: nat, rows: seq<Block>) {
    |es| <= |rows| && forall k :: 0 <= k < |es| ==> IsWrite(es[k], k, s, rows[k])
  }

  /** To the last one, or to the second that has failed. */
  ghost predicate Swept(es: seq<Happening>, s: nat, rows: seq<Block>) {
    && Writes(es, s, rows) && (|es| == |rows| || FailedAt(es, s) > 1)
    && (es != [] ==> FailedAt(es[..|es| - 1], s) <= 1)
  }

  lemma WritesOn(es: seq<Happening>, fs: seq<Happening>, s: nat, rows: seq<Block>)
    requires Writes(es, s, rows) && |es| < |rows| && |fs| == 1 && IsWrite(fs[0], |es|, s, rows[|es|])
    ensures Writes(es + fs, s, rows) && |es + fs| == |es| + 1 && (es + fs)[..|es|] == es
    ensures FailedAt(es + fs, s) == FailedAt(es, s) + FailedAt(fs, s)
  {
    FailedOn(es, fs, s);
    hide IsWrite;
  }

  /** Slice s has been read from device after device. */
  ghost predicate Reads(es: seq<Happening>, s: nat) {
    forall k :: 0 <= k < |es| ==> es[k] == Fetched(k, s)
  }

  lemma ReadsOn(es: seq<Happening>, fs: seq<Happening>, s: nat)
    requires Reads(es, s) && fs == [Fetched(|es|, s)]
    ensures Reads(es + fs, s) && |es + fs| == |es| + 1 && (es + fs)[..|es|] == es
  {}

  lemma ToldNothing(a: seq<Dev>, h: bool, slices: nat, duty: Duty)
    ensures Told(a, [], a, h, h, slices, duty)
  {}

  lemma ToldOne(a: seq<Dev>, e: Happening, h: bool, slices: nat, duty: Duty)
    requires LegalAt(a, e) && DueAt(a, e, duty)
    ensures Told(a, [e], Taken(a, e), h, h && GoodAt(a, e, slices), slices, duty)
  {
    hide LegalAt, DueAt, GoodAt, Taken;
    var es := [e];
    assert es[..|es| - 1] == [] && es[|es| - 1] == e;
    assert Legal(a, []) && AfterAll(a, []) == a && Due(a, [], duty) && Good(a, [], slices);
    assert Legal(a, es) && AfterAll(a, es) == Taken(a, e);
  }

  lemma {:induction false} ToldOn(a: seq<Dev>, es: seq<Happening>, b: seq<Dev>, fs: seq<Happening>, c: seq<Dev>,
                                  h: bool, h': bool, h'': bool, slices: nat, duty: Duty)
    requires Told(a, es, b, h, h', slices, duty) && Told(b, fs, c, h', h'', slices, duty)
    ensures Told(a, es + fs, c, h, h'', slices, duty)
    decreases |fs|
  {
    hide LegalAt, DueAt, GoodAt, Taken;
    if fs == [] {
      assert es + fs == es;
    } else {
      var n := |fs| - 1;
      var mid, h1 := AfterAll(b, fs[..n]), h' && Good(b, fs[..n], slices);
      ToldOn(a, es, b, fs[..n], mid, h, h', h1, slices, duty);
      assert (es + fs)[..|es + fs| - 1] == es + fs[..n];
    }
  }

  ghost predicate AllClean(devs: seq<Dev>) { forall i :: 0 <= i < |devs| ==> Clean(devs[i]) }

  /** Every write succeeded, or lost its data block. */
  predicate Tidy(es: seq<Happening>) { forall j :: 0 <= j < |es| && es[j].Wrote? ==> es[j].fault in {Fine, DataLost} }

  /** From devices whose hash blocks can all be read, that brings nothing back. */
  lemma {:induction false} TidyIsGood(devs: seq<Dev>, es: seq<Happening>, slices: nat)
    requires AllClean(devs) && Legal(devs, es) && Tidy(es)
    ensures Good(devs, es, slices) && AllClean(AfterAll(devs, es))
    decreases |es|
  {
    hide Clean, AfterWrite, AfterRead, AfterClear, Has, CanHappen, RevivesIn, ResurfacesIn, SurfacesIn, StaleIn;
    if es != [] {
      var n := |es| - 1;
      TidyIsGood(devs, es[..n], slices);
      TidyAt(AfterAll(devs, es[..n]), es[n], slices);
    }
  }

  lemma TidyAt(devs: seq<Dev>, e: Happening, slices: nat)
    requires AllClean(devs) && LegalAt(devs, e) && (e.Wrote? ==> e.fault in {Fine, DataLost})
    ensures GoodAt(devs, e, slices) && AllClean(Taken(devs, e))
  {
    hide Clean, AfterWrite, AfterRead, AfterClear, Has, CanHappen, RevivesIn, ResurfacesIn, SurfacesIn, StaleIn;
    match e {
      case Wrote(i, s, part, fault) =>
        WriteKeepsClean(devs[i], s, part, fault, 0);
        forall t: nat ensures !RevivesIn(devs[i], s, t) { WriteKeepsClean(devs[i], s, part, fault, t); }
      case Fetched(i, s) =>
        TouchKeepsClean(devs[i], s, 0);
        forall t: nat ensures !ResurfacesIn(devs[i], s, t) { TouchKeepsClean(devs[i], s, t); }
      case Dropped(i) =>
        TouchKeepsClean(devs[i], 0, 0);
        forall t: nat ensures !SurfacesIn(devs[i], t) { TouchKeepsClean(devs[i], 0, t); }
    }
  }
}
