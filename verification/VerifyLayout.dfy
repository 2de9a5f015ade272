/** Where the verification layer puts hashes and data on its base device. */
module VerifyLayout {
  import opened Arithmetic

  /** Chunks are one hash block followed by h data blocks; the last may be short. */
  function ChunkOf(h: nat, w: nat): nat
    requires h > 0
  {
    w / h
  }

  function HashAddr(h: nat, w: nat): nat
    requires h > 0
  {
    ChunkOf(h, w) * (h + 1)
  }

  function DataAddr(h: nat, w: nat): nat
    requires h > 0
  {
    w + ChunkOf(h, w) + 1
  }

  function HashCount(h: nat, total: nat): nat
    requires h > 0
  {
    (total + h) / (1 + h)
  }

  predicate IsHashAddr(h: nat, a: nat) { a % (h + 1) == 0 }

  /** Position of a data block inside its chunk. */
  lemma DataAddrShape(h: nat, w: nat)
    requires h > 0
    ensures DataAddr(h, w) == HashAddr(h, w) + w % h + 1
    ensures DataAddr(h, w) / (h + 1) == ChunkOf(h, w) && DataAddr(h, w) % (h + 1) == w % h + 1
    ensures HashAddr(h, w) % (h + 1) == 0 && HashAddr(h, w) / (h + 1) == ChunkOf(h, w)
  {
    var c, o := w / h, w % h;
    DivMod(w, h);
    assert (h + 1) * c == h * c + c;
    DivModUnique(DataAddr(h, w), h + 1, c, o + 1);
    DivModUnique(HashAddr(h, w), h + 1, c, 0);
  }

  lemma HashCountValue(h: nat, total: nat)
    requires h > 0
    ensures HashCount(h, total) == total / (h + 1) + if total % (h + 1) == 0 then 0 else 1
    ensures HashCount(h, total) <= total
  {
    var q, r := total / (h + 1), total % (h + 1);
    DivMod(total, h + 1);
    MulMonotone(q, 1, h + 1);
    if r == 0 {
      DivModUnique(total + h, h + 1, q, h);
    } else {
      MulSuccessor(h + 1, q);
      DivModUnique(total + h, h + 1, q + 1, r - 1);
    }
  }

  /** Every logical block lies on the device, off the hash blocks. */
  lemma DataAddrInRange(h: nat, total: nat, w: nat)
    requires h > 0 && w < total - HashCount(h, total)
    ensures HashAddr(h, w) < DataAddr(h, w) < total
    ensures IsHashAddr(h, HashAddr(h, w)) && !IsHashAddr(h, DataAddr(h, w))
  {
    var q, r, c, o := total / (h + 1), total % (h + 1), w / h, w % h;
    HashCountValue(h, total);
    DataAddrShape(h, w);
    DivTimes(total, h + 1);
    DivTimes(w, h);
    InRange(h, q, r, c, o);
  }

  /** Data block o of chunk c, on a base of q chunks and r more blocks. */
  lemma InRange(h: nat, q: nat, r: nat, c: nat, o: nat)
    requires o < h && r <= h && Times(h, c) + o + (q + if r == 0 then 0 else 1) < Times(h + 1, q) + r
    ensures Times(h, c) + o + c + 1 < Times(h + 1, q) + r
  {
    hide Times;
    TimesSuccessor(h, q);
    TimesSuccessor(h, c);
    TimesSuccessor(h + 1, c);
    if c < q {
      TimesMonotone(h + 1, c + 1, q);
    } else if c > q {
      TimesMonotone(h, q + 1, c);
    }
  }

  lemma DataAddrInjective(h: nat, v: nat, w: nat)
    requires h > 0 && DataAddr(h, v) == DataAddr(h, w)
    ensures v == w
  {
    DataAddrShape(h, v);
    DataAddrShape(h, w);
    DivMod(v, h);
    DivMod(w, h);
  }

  /** Each data block follows its own hash block, with no other in between, and data blocks are in the
      order of the logical blocks. */
  lemma DataAddrOrder(h: nat, v: nat, w: nat)
    requires h > 0
    ensures IsHashAddr(h, HashAddr(h, w)) && HashAddr(h, w) < DataAddr(h, w) <= HashAddr(h, w) + h
    ensures v < w ==> DataAddr(h, v) < DataAddr(h, w)
  {
    DataAddrShape(h, w);
    DivMod(v, h);
    DivMod(w, h);
    if v < w && ChunkOf(h, v) > ChunkOf(h, w) {
      MulMonotone(h, ChunkOf(h, w) + 1, ChunkOf(h, v));
      MulSuccessor(h, ChunkOf(h, w));
    }
  }

  /** The logical block stored at a base address that is no hash block. */
  function LogicalOf(h: nat, a: nat): nat
    requires h > 0 && !IsHashAddr(h, a)
  {
    a / (h + 1) * h + a % (h + 1) - 1
  }

  /** Every data block of the base is some logical block, also in a short last chunk. */
  lemma DataAddrSurjective(h: nat, total: nat, a: nat)
    requires h > 0 && a < total && !IsHashAddr(h, a)
    ensures LogicalOf(h, a) < total - HashCount(h, total)
    ensures DataAddr(h, LogicalOf(h, a)) == a
  {
    var c, o := a / (h + 1), a % (h + 1) - 1;
    var q, r := total / (h + 1), total % (h + 1);
    HashCountValue(h, total);
    DivTimes(a, h + 1);
    DivTimes(total, h + 1);
    LogicalShape(h, a);
    TimesUnique(LogicalOf(h, a), h, c, o);
    TimesSuccessor(h, c);
    OnBase(h, q, r, c, o);
  }

  lemma LogicalShape(h: nat, a: nat)
    requires h > 0 && !IsHashAddr(h, a)
    ensures LogicalOf(h, a) == Times(h, a / (h + 1)) + (a % (h + 1) - 1)
  {}

  lemma OnBase(h: nat, q: nat, r: nat, c: nat, o: nat)
    requires o < h && r <= h && Times(h + 1, c) + o + 1 < Times(h + 1, q) + r
    ensures Times(h, c) + o + (q + if r == 0 then 0 else 1) < Times(h + 1, q) + r
  {
    hide Times;
    TimesSuccessor(h, q);
    TimesSuccessor(h, c);
    TimesSuccessor(h + 1, q);
    if c < q {
      TimesMonotone(h, c + 1, q);
    } else if c > q {
      TimesMonotone(h + 1, q + 1, c);
    }
  }

  /** A base of at least two blocks leaves room for data, even with a trailing hash block. */
  lemma RoomForData(h: nat, total: nat)
    requires h > 0 && total >= 2
    ensures 0 < total - HashCount(h, total)
    ensures HashCount(h, total) > if IsHashAddr(h, total - 1) then 1 else 0
  {
    HashCountValue(h, total);
    DivMod(total, h + 1);
    DivMod(total - 1, h + 1);
    var q, q' := total / (h + 1), (total - 1) / (h + 1);
    assert (h + 1) * q == h * q + q;
    assert (h + 1) * q' == h * q' + q';
    MulMonotone(q, 1, h);
    if IsHashAddr(h, total - 1) {
      DivModUnique(total, h + 1, q', 1);
    }
  }
}
