/** Where the blocks of the parity device live: rows of count blocks, one of them parity,
    its position moving one device to the right with every row. */
module XorLayout {
  import opened Arithmetic

  function SliceOf(count: nat, w: nat): nat
    requires count > 1
  {
    w / (count - 1)
  }

  function ParityAt(count: nat, s: nat): nat
    requires count > 0
  {
    s % count
  }

  function DataAt(count: nat, w: nat): nat
    requires count > 1
  {
    var at := w % (count - 1);
    if ParityAt(count, SliceOf(count, w)) <= at then at + 1 else at
  }

  lemma CellInRange(count: nat, slices: nat, w: nat)
    requires count > 1 && w < slices * (count - 1)
    ensures SliceOf(count, w) < slices
    ensures DataAt(count, w) < count && ParityAt(count, SliceOf(count, w)) < count
    ensures DataAt(count, w) != ParityAt(count, SliceOf(count, w))
  {
    DivMod(w, count - 1);
    if SliceOf(count, w) >= slices { MulMonotone(count - 1, slices, SliceOf(count, w)); }
  }

  lemma CellInjective(count: nat, v: nat, w: nat)
    requires count > 1
    requires SliceOf(count, v) == SliceOf(count, w) && DataAt(count, v) == DataAt(count, w)
    ensures v == w
  {
    DivMod(v, count - 1);
    DivMod(w, count - 1);
  }

  /** Parity starts on the first device and moves one to the right with every slice, wrapping round. */
  lemma ParityMoves(count: nat, s: nat)
    requires count > 1
    ensures ParityAt(count, 0) == 0
    ensures ParityAt(count, s + 1) == if ParityAt(count, s) + 1 == count then 0 else ParityAt(count, s) + 1
  {
    var q, r := s / count, s % count;
    DivTimes(s, count);
    TimesSuccessor(count, q);
    DivTimes(s + 1, count);
    if r + 1 == count {
      TimesUnique(s + 1, count, q + 1, 0);
    } else {
      TimesUnique(s + 1, count, q, r + 1);
    }
  }

  /** The logical blocks fill the slices from left to right, one slice after the other. */
  lemma RowMajorOrder(count: nat, v: nat, w: nat)
    requires count > 1 && v < w
    ensures SliceOf(count, v) < SliceOf(count, w)
      || (SliceOf(count, v) == SliceOf(count, w) && DataAt(count, v) < DataAt(count, w))
  {
    DivMod(v, count - 1);
    DivMod(w, count - 1);
    if SliceOf(count, v) > SliceOf(count, w) {
      MulMonotone(count - 1, SliceOf(count, w) + 1, SliceOf(count, v));
      MulSuccessor(count - 1, SliceOf(count, w));
    }
  }

  function RankOf(count: nat, s: nat, i: nat): nat
    requires count > 1 && i < count && i != ParityAt(count, s)
  {
    if ParityAt(count, s) < i then i - 1 else i
  }

  function RowStart(count: nat, s: nat): nat
    requires count > 1
  {
    s * (count - 1) as nat
  }

  function LogicalAt(count: nat, s: nat, i: nat): nat
    requires count > 1 && i < count && i != ParityAt(count, s)
  {
    RowStart(count, s) + RankOf(count, s, i)
  }

  /** Every cell that is not parity holds exactly one logical block. */
  lemma CellSurjective(count: nat, slices: nat, s: nat, i: nat)
    requires count > 1 && s < slices && i < count && i != ParityAt(count, s)
    ensures LogicalAt(count, s, i) < slices * (count - 1)
    ensures SliceOf(count, LogicalAt(count, s, i)) == s && DataAt(count, LogicalAt(count, s, i)) == i
  {
    var at := RankOf(count, s, i);
    DivModUnique(LogicalAt(count, s, i), count - 1, s, at);
    MulMonotone(count - 1, s + 1, slices);
    MulSuccessor(count - 1, s);
  }
}
