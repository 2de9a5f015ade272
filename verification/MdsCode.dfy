/** Why any n of the n + m symbols are enough. */
module MdsCode {
  import opened Bits
  import opened GaloisField
  import opened LinearAlgebra
  import opened Polynomials

  /** a, ar, ar^2, ... as the inner loop of rs_create accumulates them. */
  function PowersFrom(a: byte, r: byte, n: nat): (u: Vec)
    ensures |u| == n
    decreases n
  {
    if n == 0 then [] else [a] + PowersFrom(Mul(a, r), r, n - 1)
  }

  lemma PowersStart(a: byte, r: byte, n: nat)
    requires n > 0
    ensures PowersFrom(a, r, n)[0] == a
  {}

  lemma {:induction false} PowersNext(a: byte, r: byte, n: nat, j: nat)
    requires j + 1 < n
    ensures PowersFrom(a, r, n)[j + 1] == Mul(PowersFrom(a, r, n)[j], r)
    decreases n
  {
    hide Mul;
    if j > 0 { PowersNext(Mul(a, r), r, n - 1, j - 1); }
  }

  /** Row 0 is (1, 0, ..., 0); row r is (r, r^2, ..., r^n). */
  function InitialRow(n: nat, r: byte): (u: Vec)
    ensures |u| == n
  {
    if r == 0 then UnitVec(n, 0) else PowersFrom(r, r, n)
  }

  function InitialMatrix(n: nat, rows: nat): (m: Matrix)
    requires rows <= 256
    ensures Shaped(m, rows, n)
  {
    seq(rows, r requires 0 <= r < rows => InitialRow(n, r))
  }

  lemma {:induction false} DotToHead(u: Vec, v: Vec, k: nat)
    requires 0 < k <= |u| && k <= |v|
    ensures DotTo(u, v, k) == XorByte(Mul(u[0], v[0]), DotTo(u[1..], v[1..], k - 1))
  {
    hide Mul, Xor;
    if k == 1 {
      XorComm(0, Mul(u[0], v[0]));
    } else {
      DotToHead(u, v, k - 1);
      XorAssoc(Mul(u[0], v[0]), DotTo(u[1..], v[1..], k - 2), Mul(u[k - 1], v[k - 1]));
    }
  }

  lemma {:induction false} DotPowers(a: byte, r: byte, p: Vec)
    ensures Dot(PowersFrom(a, r, |p|), p) == Mul(a, Eval(p, r))
    decreases |p|
  {
    hide Mul, Xor;
    MulUnits(a);
    if p != [] {
      var u := PowersFrom(a, r, |p|);
      DotToHead(u, p, |p|);
      assert u[1..] == PowersFrom(Mul(a, r), r, |p| - 1);
      DotPowers(Mul(a, r), r, p[1..]);
      MulAssoc(a, r, Eval(p[1..], r));
      MulXorRight(a, p[0], Mul(r, Eval(p[1..], r)));
    }
  }

  /** A row of the initial matrix annihilates p exactly when its point is a root of p. */
  lemma InitialRowRoot(p: Vec, r: byte)
    requires p != []
    ensures Dot(InitialRow(|p|, r), p) == 0 <==> Eval(p, r) == 0
  {
    hide Mul, Xor;
    if r == 0 {
      DotToUnit(UnitVec(|p|, 0), p, 0, |p|);
      MulUnits(Eval(p[1..], 0));
      XorZero(p[0]);
    } else {
      DotPowers(r, r, p);
      MulNonzero(r, Eval(p, r));
    }
  }

  /** The values of a polynomial at 0, 1, 2, ..., each but the first times the point it is taken at. */
  function ScaledValues(p: Vec, k: nat): (u: Vec)
    requires p != [] && k <= 256
    ensures |u| == k
  {
    seq(k, r requires 0 <= r < k => if r == 0 then p[0] else Mul(r, Eval(p, r)))
  }

  /** The initial matrix evaluates polynomials. */
  lemma InitialEvaluates(p: Vec, rows: nat)
    requires p != [] && rows <= 256
    ensures Apply(InitialMatrix(|p|, rows), p) == ScaledValues(p, rows)
  {
    hide Mul, Xor, DotTo, PowersFrom, Eval;
    forall r: nat | r < rows
      ensures Dot(InitialRow(|p|, r), p) == ScaledValues(p, rows)[r]
    {
      if r == 0 { DotToUnit(UnitVec(|p|, 0), p, 0, |p|); } else { DotPowers(r, r, p); }
    }
  }

  // ---- the two properties the eliminations rely on

  ghost function ZeroRows(g: Matrix, x: Vec): set<nat>
    requires Shaped(g, |g|, |x|)
  {
    set r: nat | r < |g| && Dot(g[r], x) == 0
  }

  /** A nonzero vector is annihilated by fewer than n rows, so any n rows have trivial kernel. */
  ghost predicate Mds(g: Matrix, n: nat) {
    && Shaped(g, |g|, n)
    && forall x: Vec :: |x| == n && !IsZero(x) ==> |ZeroRows(g, x)| < n
  }

  ghost predicate AnnihilatedExcept(g: Matrix, n: nat, i: nat, x: Vec)
    requires Shaped(g, |g|, n) && n <= |g|
  {
    |x| == n && !IsZero(x) && forall r :: 0 <= r < n && r != i ==> Dot(g[r], x) == 0
  }

  ghost predicate SeparatedAt(g: Matrix, n: nat, i: nat)
    requires Shaped(g, |g|, n) && n <= |g|
  {
    exists x: Vec :: AnnihilatedExcept(g, n, i, x)
  }

  /** No top row is a combination of the other top rows: for each there is a vector
      that annihilates all the others. */
  ghost predicate Separated(g: Matrix, n: nat) {
    && Shaped(g, |g|, n) && n <= |g|
    && forall i :: 0 <= i < n ==> SeparatedAt(g, n, i)
  }

  lemma InitialIsMds(n: nat, rows: nat)
    requires 0 < n <= rows <= 256
    ensures Mds(InitialMatrix(n, rows), n)
  {
    hide Dot, Eval, InitialRow;
    var g := InitialMatrix(n, rows);
    forall x: Vec | |x| == n && !IsZero(x)
      ensures |ZeroRows(g, x)| < n
    {
      FewRoots(x, rows);
      forall r | r in ZeroRows(g, x)
        ensures r in Roots(x, rows)
      {
        InitialRowRoot(x, r);
      }
      SubsetSize(ZeroRows(g, x), Roots(x, rows));
    }
  }

  lemma InitialIsSeparated(n: nat, rows: nat)
    requires 0 < n <= rows <= 256
    ensures Separated(InitialMatrix(n, rows), n)
  {
    hide Dot, Eval, InitialRow;
    var g := InitialMatrix(n, rows);
    forall i | 0 <= i < n
      ensures SeparatedAt(g, n, i)
    {
      var x := Vanishing(i, n);
      VanishingIsMonic(i, n);
      forall r | 0 <= r < n && r != i
        ensures Dot(g[r], x) == 0
      {
        VanishingVanishes(i, n, r);
        InitialRowRoot(x, r);
      }
      assert AnnihilatedExcept(g, n, i, x);
    }
  }

  lemma MdsKept(op: Op, g: Matrix, n: nat)
    requires Mds(g, n) && op.Valid(n)
    ensures Mds(ActColumns(op, g), n)
  {
    hide Dot, Act;
    var g' := ActColumns(op, g);
    forall x: Vec | |x| == n && !IsZero(x)
      ensures |ZeroRows(g', x)| < n
    {
      ActInverse(op, x);
      var x' := Act(op.Transpose(), x);
      ActZero(op.Transpose(), x);
      forall r: nat | r < |g|
        ensures Dot(g'[r], x) == Dot(g[r], x')
      {
        DotAct(op, g[r], x);
      }
      assert ZeroRows(g', x) == ZeroRows(g, x');
    }
  }

  lemma SeparatedKept(op: Op, g: Matrix, n: nat)
    requires Separated(g, n) && op.Valid(n)
    ensures Separated(ActColumns(op, g), n)
  {
    hide Dot, Act;
    var g' := ActColumns(op, g);
    forall i | 0 <= i < n
      ensures SeparatedAt(g', n, i)
    {
      assert SeparatedAt(g, n, i);
      var y: Vec :| AnnihilatedExcept(g, n, i, y);
      ActInverse(op, y);
      var t := op.Transpose();
      ActInverse(t, y);
      var x := Act(t.Inverted(), y);
      ActInverse(t.Inverted(), y);
      InvertedTwice(t, y);
      ActZero(t.Inverted(), y);
      forall r | 0 <= r < n && r != i
        ensures Dot(g'[r], x) == 0
      {
        DotAct(op, g[r], x);
      }
      assert AnnihilatedExcept(g', n, i, x);
    }
  }

  lemma InvertedTwice(op: Op, u: Vec)
    requires op.Valid(|u|)
    ensures op.Inverted().Valid(|u|)
    ensures Act(op, Act(op.Inverted(), u)) == u
  {
    hide Mul, Xor;
    match op
    case Swap(i, f) =>
    case Scale(i, c) =>
      MulAssoc(c, Inverse(c), u[i]);
      MulComm(c, Inverse(c));
      MulUnits(u[i]);
    case AddTo(j, i, c) =>
      XorCancel(u[j], Mul(c, u[i]));
  }

  /** With i unit rows on top, row i has a nonzero entry at or after column i. */
  lemma ColumnPivotExists(g: Matrix, n: nat, i: nat)
    requires Mds(g, n) && Separated(g, n) && i < n
    requires forall r :: 0 <= r < i ==> g[r] == UnitVec(n, r)
    ensures exists j :: i <= j < n && g[i][j] != 0
  {
    hide Mul;
    if forall j :: i <= j < n ==> g[i][j] == 0 {
      assert SeparatedAt(g, n, i);
      var x: Vec :| AnnihilatedExcept(g, n, i, x);
      forall r | 0 <= r < i
        ensures x[r] == 0
      {
        DotToUnit(g[r], x, r, n);
      }
      DotToZeroTail(g[i], x, 0, n);
      forall r | r in FirstNats(n)
        ensures r in ZeroRows(g, x)
      {
        FirstNatsCount(n);
        assert Dot(g[r], x) == 0;
      }
      FirstNatsCount(n);
      SubsetSize(FirstNats(n), ZeroRows(g, x));
      assert false;
    }
  }

  ghost function FirstNats(n: nat): set<nat> {
    if n == 0 then {} else FirstNats(n - 1) + {n - 1}
  }

  lemma {:induction false} FirstNatsCount(n: nat)
    ensures |FirstNats(n)| == n
    ensures forall r :: r in FirstNats(n) <==> 0 <= r < n
  {
    if n > 0 { FirstNatsCount(n - 1); }
  }

  // ---- surviving symbols

  /** The elements of the first k whose mark is set, in order. */
  function Select<T>(s: seq<T>, mask: seq<byte>, k: nat): (r: seq<T>)
    requires k <= |s| && k <= |mask|
    ensures |r| <= k
  {
    if k == 0 then []
    else Select(s, mask, k - 1) + if mask[k - 1] != 0 then [s[k - 1]] else []
  }

  ghost function Marked(mask: seq<byte>, k: nat): set<nat>
    requires k <= |mask|
  {
    if k == 0 then {} else Marked(mask, k - 1) + if mask[k - 1] != 0 then {k - 1} else {}
  }

  lemma {:induction false} MarkedMember(mask: seq<byte>, k: nat)
    requires k <= |mask|
    ensures forall r :: r in Marked(mask, k) <==> 0 <= r < k && mask[r] != 0
  {
    if k > 0 { MarkedMember(mask, k - 1); }
  }

  lemma {:induction false} SelectCount<T>(s: seq<T>, mask: seq<byte>, k: nat)
    requires k <= |s| && k <= |mask|
    ensures |Select(s, mask, k)| == |Marked(mask, k)|
  {
    if k > 0 {
      SelectCount(s, mask, k - 1);
      MarkedMember(mask, k - 1);
      assert k - 1 !in Marked(mask, k - 1);
    }
  }

  /** What is selected stays in order: the place of an element is the number of those selected before it. */
  lemma {:induction false} SelectPlace<T>(s: seq<T>, mask: seq<byte>, k: nat, r: nat)
    requires k <= |s| && k <= |mask| && r < k && mask[r] != 0
    ensures |Marked(mask, r)| < |Select(s, mask, k)| && Select(s, mask, k)[|Marked(mask, r)|] == s[r]
    decreases k
  {
    if r < k - 1 { SelectPlace(s, mask, k - 1, r); } else { SelectCount(s, mask, r); }
  }

  /** Selecting rows and then encoding is encoding and then selecting symbols. */
  lemma {:induction false} SelectApply(g: Matrix, x: Vec, mask: seq<byte>, k: nat)
    requires Shaped(g, |g|, |x|) && k <= |g| && k <= |mask|
    ensures Shaped(Select(g, mask, k), |Select(g, mask, k)|, |x|)
    ensures Apply(Select(g, mask, k), x) == Select(Apply(g, x), mask, k)
  {
    hide Dot;
    if k > 0 {
      SelectApply(g, x, mask, k - 1);
    }
  }

  lemma {:induction false} SelectZero(v: Vec, mask: seq<byte>, k: nat)
    requires k <= |v| && k <= |mask|
    requires IsZero(Select(v, mask, k))
    ensures forall r :: 0 <= r < k && mask[r] != 0 ==> v[r] == 0
  {
    if k > 0 {
      var s, s' := Select(v, mask, k), Select(v, mask, k - 1);
      assert forall i :: 0 <= i < |s'| ==> s'[i] == s[i];
      SelectZero(v, mask, k - 1);
      if mask[k - 1] != 0 { assert s[|s| - 1] == v[k - 1]; }
    }
  }

  ghost predicate KernelTrivialAt(a: Matrix, n: nat, x: Vec)
    requires Shaped(a, |a|, n)
  {
    |x| == n && IsZero(Apply(a, x)) ==> IsZero(x)
  }

  ghost predicate TrivialKernel(a: Matrix, n: nat)
    requires Shaped(a, |a|, n)
  {
    forall x: Vec :: KernelTrivialAt(a, n, x)
  }

  /** Any n rows of an MDS matrix determine the vector they were applied to. */
  lemma SelectedRowsIndependent(g: Matrix, n: nat, mask: seq<byte>)
    requires Mds(g, n) && |mask| == |g| && |Marked(mask, |g|)| == n
    ensures Shaped(Select(g, mask, |g|), n, n)
    ensures TrivialKernel(Select(g, mask, |g|), n)
  {
    hide Apply, IsZero;
    SelectCount(g, mask, |g|);
    SelectApply(g, Zeros(n), mask, |g|);
    forall x: Vec
      ensures KernelTrivialAt(Select(g, mask, |g|), n, x)
    {
      if |x| == n && IsZero(Apply(Select(g, mask, |g|), x)) { MarkedRowsAreZero(g, mask, x); }
    }
  }

  lemma MarkedRowsAreZero(g: Matrix, mask: seq<byte>, x: Vec)
    requires Mds(g, |x|) && |mask| == |g| && |Marked(mask, |g|)| == |x|
    requires Shaped(Select(g, mask, |g|), |x|, |x|)
    requires IsZero(Apply(Select(g, mask, |g|), x))
    ensures IsZero(x)
  {
    hide Dot, Select, Marked;
    SelectApply(g, x, mask, |g|);
    SelectZero(Apply(g, x), mask, |g|);
    MarkedMember(mask, |g|);
    forall r | r in Marked(mask, |g|)
      ensures r in ZeroRows(g, x)
    {
      assert Apply(g, x)[r] == 0;
    }
    SubsetSize(Marked(mask, |g|), ZeroRows(g, x));
  }
}
