/** Gauss-Jordan elimination of the surviving rows, and applying a matrix to symbols. */
module Reversal {
  import opened Bits
  import opened GaloisField
  import opened GaloisTables
  import opened LinearAlgebra
  import opened MdsCode
  import opened RowMajor
  import opened ReedSolomon

  ghost predicate Agrees(a: Matrix, l: Matrix, r: Matrix, n: nat, x: Vec)
    requires Shaped(a, n, n) && Shaped(l, n, n) && Shaped(r, n, n)
  {
    |x| == n ==> Apply(l, x) == Apply(r, Apply(a, x))
  }

  /** rhs applied to the image of a equals lhs applied directly: rhs * a = lhs. */
  ghost predicate Tracks(a: Matrix, l: Matrix, r: Matrix, n: nat) {
    && Shaped(a, n, n) && Shaped(l, n, n) && Shaped(r, n, n)
    && forall x: Vec :: Agrees(a, l, r, n, x)
  }

  ghost predicate UnitColumns(l: Matrix, n: nat, k: nat)
    requires Shaped(l, n, n) && k <= n
  {
    forall i, c :: 0 <= i < n && 0 <= c < k ==> l[i][c] == if i == c then 1 else 0
  }

  /** The invariant of the elimination before column row. */
  ghost predicate Solving(a: Matrix, l: Matrix, r: Matrix, n: nat, row: nat) {
    && row <= n
    && Tracks(a, l, r, n)
    && TrivialKernel(l, n)
    && UnitColumns(l, n, row)
  }

  lemma TracksKept(op: Op, a: Matrix, l: Matrix, r: Matrix, n: nat)
    requires Tracks(a, l, r, n) && op.Valid(n)
    ensures Tracks(a, ActRows(op, l), ActRows(op, r), n)
  {
    hide ActRows, Apply;
    forall x: Vec
      ensures Agrees(a, ActRows(op, l), ActRows(op, r), n, x)
    {
      if |x| == n {
        assert Agrees(a, l, r, n, x);
        TracksAt(op, l, r, x, Apply(a, x), n);
      }
    }
  }

  lemma TracksAt(op: Op, l: Matrix, r: Matrix, x: Vec, y: Vec, n: nat)
    requires Shaped(l, n, n) && Shaped(r, n, n) && |x| == n && |y| == n && op.Valid(n)
    requires Apply(l, x) == Apply(r, y)
    ensures Apply(ActRows(op, l), x) == Apply(ActRows(op, r), y)
    ensures IsZero(Apply(ActRows(op, l), x)) ==> IsZero(Apply(l, x))
  {
    hide Apply, ActRows, Act;
    ApplyActRows(op, l, x);
    ApplyActRows(op, r, y);
    ActZero(op, Apply(l, x));
  }

  lemma KernelKept(op: Op, l: Matrix, n: nat)
    requires Shaped(l, n, n) && op.Valid(n) && TrivialKernel(l, n)
    ensures TrivialKernel(ActRows(op, l), n)
  {
    hide ActRows, Apply, IsZero;
    forall x: Vec
      ensures KernelTrivialAt(ActRows(op, l), n, x)
    {
      if |x| == n {
        assert KernelTrivialAt(l, n, x);
        TracksAt(op, l, l, x, x, n);
      }
    }
  }

  lemma UnitColumnsKept(op: Op, l: Matrix, n: nat, row: nat)
    requires Shaped(l, n, n) && op.Valid(n) && row <= n && UnitColumns(l, n, row)
    requires op.i >= row && (op.Swap? ==> op.f >= row)
    ensures UnitColumns(ActRows(op, l), n, row)
  {
    hide Mul, Xor;
    if !op.Swap? { MulUnits(op.c); }
    XorZero(0);
    XorZero(1);
  }

  lemma SolvingStep(op: Op, a: Matrix, l: Matrix, r: Matrix, n: nat, row: nat)
    requires Solving(a, l, r, n, row) && op.Valid(n)
    requires op.i >= row && (op.Swap? ==> op.f >= row)
    ensures Solving(a, ActRows(op, l), ActRows(op, r), n, row)
  {
    TracksKept(op, a, l, r, n);
    KernelKept(op, l, n);
    UnitColumnsKept(op, l, n, row);
  }

  ghost function Combination(l: Matrix, n: nat, row: nat): (x: Vec)
    requires Shaped(l, n, n) && row < n
    ensures |x| == n && !IsZero(x)
  {
    var x := seq(n, c requires 0 <= c < n => if c < row then l[c][row] else if c == row then 1 else 0);
    assert x[row] == 1;
    x
  }

  lemma CombinationVanishes(l: Matrix, n: nat, row: nat)
    requires Shaped(l, n, n) && row < n && UnitColumns(l, n, row)
    requires forall i :: row <= i < n ==> l[i][row] == 0
    ensures IsZero(Apply(l, Combination(l, n, row)))
  {
    hide Mul, Xor;
    var x := Combination(l, n, row);
    forall i | 0 <= i < n
      ensures Dot(l[i], x) == 0
    {
      DotToZeroTail(l[i], x, row + 1, n);
      DotToUnit(l[i], x, i, row);
      MulUnits(l[i][row]);
      XorSelf(l[i][row]);
      XorZero(0);
    }
  }

  lemma KernelAt(l: Matrix, n: nat, x: Vec)
    requires Shaped(l, n, n) && TrivialKernel(l, n) && |x| == n
    ensures IsZero(Apply(l, x)) ==> IsZero(x)
  {
    assert KernelTrivialAt(l, n, x);
  }

  /** Otherwise column row would be a combination of the unit columns before it. */
  lemma RowPivotExists(l: Matrix, n: nat, row: nat)
    requires Shaped(l, n, n) && row < n && TrivialKernel(l, n) && UnitColumns(l, n, row)
    ensures exists i :: row <= i < n && l[i][row] != 0
  {
    hide Apply, Combination;
    if forall i :: row <= i < n ==> l[i][row] == 0 {
      KernelAt(l, n, Combination(l, n, row));
      CombinationVanishes(l, n, row);
    }
  }

  lemma IdentityApplies(m: Matrix, n: nat, x: Vec)
    requires Shaped(m, n, n) && |x| == n && UnitColumns(m, n, n)
    ensures Apply(m, x) == x
  {
    forall i | 0 <= i < n
      ensures Dot(m[i], x) == x[i]
    {
      DotToUnit(m[i], x, i, n);
    }
  }

  lemma IdentityTracks(a: Matrix, r: Matrix, n: nat)
    requires Shaped(a, n, n) && Shaped(r, n, n) && UnitColumns(r, n, n)
    ensures Tracks(a, a, r, n)
  {
    hide Apply;
    forall x: Vec
      ensures Agrees(a, a, r, n, x)
    {
      if |x| == n { IdentityApplies(r, n, Apply(a, x)); }
    }
  }

  // ---- row operations on both sides at once

  ghost predicate Pair(lhs: array<byte>, rhs: array<byte>, n: nat)
    reads lhs, rhs
  {
    lhs != rhs && Sized(lhs[..], n, n) && Sized(rhs[..], n, n)
  }

  ghost function Swapping(g: Matrix, row: nat, found: nat, i: nat): Matrix
    requires row < |g| && found < |g| && i <= |g[row]| == |g[found]|
  {
    g[row := Mix(g[found], g[row], i)][found := Mix(g[row], g[found], i)]
  }

  lemma SwappingStep(g: Matrix, row: nat, found: nat, i: nat)
    requires row < |g| && found < |g| && i < |g[row]| == |g[found]| && row != found
    ensures var s := Swapping(g, row, found, i);
      && s[row][i] == g[row][i] && s[found][i] == g[found][i]
      && var s1 := s[row := s[row][i := g[found][i]]];
      && s1[found] == s[found]
      && s1[found := s1[found][i := g[row][i]]] == Swapping(g, row, found, i + 1)
  {
    hide Mix;
    MixStep(g[found], g[row], i);
    MixStep(g[row], g[found], i);
  }

  lemma SwappingEnds(g: Matrix, row: nat, found: nat)
    requires row < |g| && found < |g| && |g[row]| == |g[found]| && row != found
    ensures Swapping(g, row, found, 0) == g
    ensures Swapping(g, row, found, |g[row]|) == g[row := g[found]][found := g[row]]
  {
    hide Mix;
    MixEnds(g[found], g[row]);
    MixEnds(g[row], g[found]);
  }

  method SwapRows(lhs: array<byte>, rhs: array<byte>, n: nat, row: nat, found: nat)
    requires Pair(lhs, rhs, n) && row < n && found < n && row != found
    modifies lhs, rhs
    ensures Pair(lhs, rhs, n)
    ensures Grid(lhs[..], n, n) == ActRows(Swap(row, found), old(Grid(lhs[..], n, n)))
    ensures Grid(rhs[..], n, n) == ActRows(Swap(row, found), old(Grid(rhs[..], n, n)))
  {
    hide Grid, Swapping;
    ghost var l, r := Grid(lhs[..], n, n), Grid(rhs[..], n, n);
    SwappingEnds(l, row, found);
    SwappingEnds(r, row, found);
    for i := 0 to n
      invariant Pair(lhs, rhs, n)
      invariant Grid(lhs[..], n, n) == Swapping(l, row, found, i)
      invariant Grid(rhs[..], n, n) == Swapping(r, row, found, i)
    {
      SwappingStep(l, row, found, i);
      SwappingStep(r, row, found, i);
      var x := Get(lhs, n, n, row, i);
      var y := Get(lhs, n, n, found, i);
      Set(lhs, n, n, row, i, y);
      Set(lhs, n, n, found, i, x);
      x := Get(rhs, n, n, row, i);
      y := Get(rhs, n, n, found, i);
      Set(rhs, n, n, row, i, y);
      Set(rhs, n, n, found, i, x);
    }
  }

  method ScaleRows(t: Tables, lhs: array<byte>, rhs: array<byte>, n: nat, row: nat, inv: byte)
    requires t.Valid() && Pair(lhs, rhs, n) && row < n && inv != 0
    modifies lhs, rhs
    ensures Pair(lhs, rhs, n)
    ensures Grid(lhs[..], n, n) == ActRows(Scale(row, inv), old(Grid(lhs[..], n, n)))
    ensures Grid(rhs[..], n, n) == ActRows(Scale(row, inv), old(Grid(rhs[..], n, n)))
  {
    hide Grid, Mix, Mul;
    ghost var l, r := Grid(lhs[..], n, n), Grid(rhs[..], n, n);
    MixEnds(ScaleVec(inv, l[row]), l[row]);
    MixEnds(ScaleVec(inv, r[row]), r[row]);
    for i := 0 to n
      invariant Pair(lhs, rhs, n)
      invariant Grid(lhs[..], n, n) == l[row := Mix(ScaleVec(inv, l[row]), l[row], i)]
      invariant Grid(rhs[..], n, n) == r[row := Mix(ScaleVec(inv, r[row]), r[row], i)]
    {
      MixStep(ScaleVec(inv, l[row]), l[row], i);
      MixStep(ScaleVec(inv, r[row]), r[row], i);
      var x := Get(lhs, n, n, row, i);
      Set(lhs, n, n, row, i, GfMult(t, inv, x));
      x := Get(rhs, n, n, row, i);
      Set(rhs, n, n, row, i, GfMult(t, inv, x));
    }
  }

  method AddRows(t: Tables, lhs: array<byte>, rhs: array<byte>, n: nat, other: nat, row: nat, val: byte)
    requires t.Valid() && Pair(lhs, rhs, n) && row < n && other < n && row != other
    modifies lhs, rhs
    ensures Pair(lhs, rhs, n)
    ensures Grid(lhs[..], n, n) == ActRows(AddTo(other, row, val), old(Grid(lhs[..], n, n)))
    ensures Grid(rhs[..], n, n) == ActRows(AddTo(other, row, val), old(Grid(rhs[..], n, n)))
  {
    hide Grid, Mix, Mul, Xor;
    ghost var l, r := Grid(lhs[..], n, n), Grid(rhs[..], n, n);
    ghost var l', r' := AddScaled(l[other], val, l[row]), AddScaled(r[other], val, r[row]);
    MixEnds(l', l[other]);
    MixEnds(r', r[other]);
    for i := 0 to n
      invariant Pair(lhs, rhs, n)
      invariant Grid(lhs[..], n, n) == l[other := Mix(l', l[other], i)]
      invariant Grid(rhs[..], n, n) == r[other := Mix(r', r[other], i)]
    {
      MixStep(l', l[other], i);
      MixStep(r', r[other], i);
      var x := Get(lhs, n, n, row, i);
      var y := Get(lhs, n, n, other, i);
      Set(lhs, n, n, other, i, GfAdd(y, GfMult(t, val, x)));
      x := Get(rhs, n, n, row, i);
      y := Get(rhs, n, n, other, i);
      Set(rhs, n, n, other, i, GfAdd(y, GfMult(t, val, x)));
    }
  }

  // ---- rs_create_reversal

  /** First row below the diagonal with a nonzero entry in column row. */
  method FindRow(lhs: array<byte>, n: nat, row: nat) returns (found: nat)
    requires Sized(lhs[..], n, n) && row < n
    requires exists i :: row < i < n && Grid(lhs[..], n, n)[i][row] != 0
    ensures row < found < n && Grid(lhs[..], n, n)[found][row] != 0
    ensures forall i :: row < i < found ==> Grid(lhs[..], n, n)[i][row] == 0
  {
    found := row + 1;
    while found < n
      invariant row < found <= n
      invariant forall i :: row < i < found ==> Grid(lhs[..], n, n)[i][row] == 0
    {
      var x := Get(lhs, n, n, found, row);
      if x != 0 { return; }
      found := found + 1;
    }
    assert false;
  }

  method MakeRowPivot(t: Tables, lhs: array<byte>, rhs: array<byte>, n: nat, row: nat, ghost a: Matrix)
    requires t.Valid() && Pair(lhs, rhs, n) && row < n
    requires Solving(a, Grid(lhs[..], n, n), Grid(rhs[..], n, n), n, row)
    modifies lhs, rhs
    ensures Pair(lhs, rhs, n)
    ensures Solving(a, Grid(lhs[..], n, n), Grid(rhs[..], n, n), n, row)
    ensures Grid(lhs[..], n, n)[row][row] == 1
  {
    hide Mul, Xor, Tracks, TrivialKernel, UnitColumns, Grid;
    var d := Get(lhs, n, n, row, row);
    if d == 0 {
      RowPivotExists(Grid(lhs[..], n, n), n, row);
      var found := FindRow(lhs, n, row);
      SolvingStep(Swap(row, found), a, Grid(lhs[..], n, n), Grid(rhs[..], n, n), n, row);
      SwapRows(lhs, rhs, n, row, found);
    }
    d := Get(lhs, n, n, row, row);
    assert d != 0;
    if d != 1 {
      var inv := GfDiv(t, 1, d);
      MulUnits(d);
      SolvingStep(Scale(row, inv), a, Grid(lhs[..], n, n), Grid(rhs[..], n, n), n, row);
      ScaleRows(t, lhs, rhs, n, row, inv);
    }
  }

  method ClearColumn(t: Tables, lhs: array<byte>, rhs: array<byte>, n: nat, row: nat, ghost a: Matrix)
    requires t.Valid() && Pair(lhs, rhs, n) && row < n
    requires Solving(a, Grid(lhs[..], n, n), Grid(rhs[..], n, n), n, row)
    requires Grid(lhs[..], n, n)[row][row] == 1
    modifies lhs, rhs
    ensures Pair(lhs, rhs, n)
    ensures Solving(a, Grid(lhs[..], n, n), Grid(rhs[..], n, n), n, row + 1)
  {
    hide Mul, Xor, Tracks, TrivialKernel, Grid;
    for other := 0 to n
      invariant Pair(lhs, rhs, n)
      invariant Solving(a, Grid(lhs[..], n, n), Grid(rhs[..], n, n), n, row)
      invariant Grid(lhs[..], n, n)[row][row] == 1
      invariant forall i :: 0 <= i < other && i != row ==> Grid(lhs[..], n, n)[i][row] == 0
    {
      if other == row { continue; }
      var val := Get(lhs, n, n, other, row);
      if val == 0 { continue; }
      SolvingStep(AddTo(other, row, val), a, Grid(lhs[..], n, n), Grid(rhs[..], n, n), n, row);
      MulUnits(val);
      XorSelf(val);
      AddRows(t, lhs, rhs, n, other, row, val);
    }
  }

  method SetIdentity(rhs: array<byte>, n: nat)
    requires Sized(rhs[..], n, n)
    requires forall k :: 0 <= k < rhs.Length ==> rhs[k] == 0
    modifies rhs
    ensures Sized(rhs[..], n, n)
    ensures UnitColumns(Grid(rhs[..], n, n), n, n)
  {
    ZeroGrid(rhs[..], n);
    for i := 0 to n
      invariant Sized(rhs[..], n, n)
      invariant forall r, c :: 0 <= r < n && 0 <= c < n ==>
        Grid(rhs[..], n, n)[r][c] == if r == c && r < i then 1 else 0
    {
      Set(rhs, n, n, i, i, 1);
    }
  }

  lemma ZeroGrid(s: seq<byte>, n: nat)
    requires Sized(s, n, n) && forall k :: 0 <= k < |s| ==> s[k] == 0
    ensures forall r, c :: 0 <= r < n && 0 <= c < n ==> Grid(s, n, n)[r][c] == 0
  {
    forall r, c | 0 <= r < n && 0 <= c < n
      ensures Grid(s, n, n)[r][c] == 0
    {
      GridEntry(s, n, n, r, c);
    }
  }

  lemma {:induction false} SelectGrows<T>(s: seq<T>, mask: seq<byte>, k: nat, l: nat)
    requires k <= l <= |s| && l <= |mask|
    ensures |Select(s, mask, k)| <= |Select(s, mask, l)|
    ensures k < l && mask[k] != 0 ==> |Select(s, mask, k)| < |Select(s, mask, l)|
  {
    if k < l { SelectGrows(s, mask, k, l - 1); }
  }

  lemma SelectStep<T>(s: seq<T>, mask: seq<byte>, k: nat)
    requires k < |s| && k < |mask|
    ensures Select(s, mask, k + 1) == if mask[k] != 0 then Select(s, mask, k) + [s[k]] else Select(s, mask, k)
  {}

  lemma NoneSelected<T>(s: seq<T>, mask: seq<byte>)
    ensures Select(s, mask, 0) == []
  {}

  method CopyRow(m: array<byte>, n: nat, ghost rows: nat, i: nat, lhs: array<byte>, cur: nat)
    requires lhs != m && Sized(m[..], n, rows) && Sized(lhs[..], n, n) && i < rows && cur < n
    modifies lhs
    ensures Sized(lhs[..], n, n)
    ensures Grid(lhs[..], n, n) == old(Grid(lhs[..], n, n))[cur := Grid(m[..], n, rows)[i]]
  {
    hide Grid, Mix;
    ghost var l, u := Grid(lhs[..], n, n), Grid(m[..], n, rows)[i];
    MixEnds(u, l[cur]);
    for j := 0 to n
      invariant Sized(lhs[..], n, n)
      invariant Grid(lhs[..], n, n) == l[cur := Mix(u, l[cur], j)]
    {
      MixStep(u, l[cur], j);
      var x := Get(m, n, rows, i, j);
      Set(lhs, n, n, cur, j, x);
    }
  }

  lemma PrefixGrows<T>(l: seq<T>, cur: nat, row: T)
    requires cur < |l|
    ensures l[cur := row][..cur + 1] == l[..cur] + [row]
  {}

  /** Add the rows whose symbol survived to lhs, in order. */
  method CopySurvivors(m: array<byte>, n: nat, rows: nat, alive: array<byte>, lhs: array<byte>)
    requires lhs != m && lhs != alive
    requires Sized(m[..], n, rows) && Sized(lhs[..], n, n) && alive.Length >= rows
    requires |Marked(alive[..rows], rows)| == n
    modifies lhs
    ensures Sized(lhs[..], n, n)
    ensures Grid(lhs[..], n, n) == Select(Grid(m[..], n, rows), alive[..rows], rows)
  {
    hide Grid, Select;
    ghost var g, mask := Grid(m[..], n, rows), alive[..rows];
    SelectCount(g, mask, rows);
    NoneSelected(g, mask);
    var cur := 0;
    for i := 0 to rows
      invariant Sized(lhs[..], n, n)
      invariant cur == |Select(g, mask, i)| <= n
      invariant Grid(lhs[..], n, n)[..cur] == Select(g, mask, i)
      invariant m[..] == old(m[..]) && alive[..rows] == mask
    {
      SelectStep(g, mask, i);
      SelectGrows(g, mask, i, rows);
      SelectGrows(g, mask, i + 1, rows);
      if alive[i] != 0 {
        ghost var l := Grid(lhs[..], n, n);
        CopyRow(m, n, rows, i, lhs, cur);
        PrefixGrows(l, cur, g[i]);
        cur := cur + 1;
      }
    }
    assert Grid(lhs[..], n, n)[..n] == Grid(lhs[..], n, n);
  }

  /** The reversal turns any n surviving symbols of a codeword back into the data. */
  method RsCreateReversal(t: Tables, gen: RsMatrix, alive: array<byte>) returns (rev: RsMatrix)
    requires t.Valid() && gen.IsGenerator()
    requires alive.Length >= gen.data + gen.cs
    requires |Marked(alive[..gen.data + gen.cs], gen.data + gen.cs)| == gen.data
    ensures fresh(rev) && fresh(rev.m)
    ensures rev.data == gen.data && rev.cs == gen.cs && Sized(rev.m[..], rev.data, rev.data)
    ensures Reverses(gen.Generator(), alive[..gen.data + gen.cs], rev.Reversal(), gen.data)
  {
    hide Mul, Xor, Tracks, TrivialKernel, Grid, Mds, UnitColumns, Select;
    var n, rows := gen.data, gen.data + gen.cs;
    ghost var g, mask := gen.Generator(), alive[..rows];
    var rhs := new byte[n * n](_ => 0);
    SetIdentity(rhs, n);
    var lhs := new byte[n * n](_ => 0);
    CopySurvivors(gen.m, n, rows, alive, lhs);
    ghost var a := Grid(lhs[..], n, n);
    SelectedRowsIndependent(g, n, mask);
    IdentityTracks(a, Grid(rhs[..], n, n), n);
    NoColumns(a, n);
    for row := 0 to n
      invariant Pair(lhs, rhs, n)
      invariant Solving(a, Grid(lhs[..], n, n), Grid(rhs[..], n, n), n, row)
    {
      MakeRowPivot(t, lhs, rhs, n, row, a);
      ClearColumn(t, lhs, rhs, n, row, a);
    }
    SolvedReverses(g, mask, Grid(lhs[..], n, n), Grid(rhs[..], n, n), n);
    rev := new RsMatrix(n, gen.cs, rhs);
  }

  lemma NoColumns(a: Matrix, n: nat)
    requires Shaped(a, n, n)
    ensures UnitColumns(a, n, 0)
  {}

  ghost predicate ReversesAt(g: Matrix, mask: seq<byte>, r: Matrix, n: nat, x: Vec)
    requires Shaped(g, |g|, n) && Shaped(r, n, n) && |mask| == |g|
  {
    |x| == n ==> |Select(Apply(g, x), mask, |g|)| == n && Apply(r, Select(Apply(g, x), mask, |g|)) == x
  }

  /** Applied to the surviving symbols of the codeword of x, r yields x, for every x. */
  ghost predicate Reverses(g: Matrix, mask: seq<byte>, r: Matrix, n: nat) {
    && Shaped(g, |g|, n) && Shaped(r, n, n) && |mask| == |g|
    && forall x: Vec :: ReversesAt(g, mask, r, n, x)
  }

  lemma SolvedReverses(g: Matrix, mask: seq<byte>, l: Matrix, r: Matrix, n: nat)
    requires Shaped(g, |g|, n) && |mask| == |g|
    requires Solving(Select(g, mask, |g|), l, r, n, n)
    ensures Reverses(g, mask, r, n)
  {
    hide Apply, Select, UnitColumns, TrivialKernel;
    var a := Select(g, mask, |g|);
    forall x: Vec
      ensures ReversesAt(g, mask, r, n, x)
    {
      if |x| == n {
        assert Agrees(a, l, r, n, x);
        IdentityApplies(l, n, x);
        SelectApply(g, x, mask, |g|);
      }
    }
  }

  // ---- rs_apply

  method RsApply(t: Tables, m: array<byte>, ghost rows: nat, first: nat, inct: nat, inp: array<byte>, outct: nat,
                 out: array<byte>)
    requires t.Valid() && Sized(m[..], inct, rows) && first + outct <= rows
    requires inp.Length == inct && out.Length == outct && out != inp && out != m
    modifies out
    ensures out[..] == Apply(Grid(m[..], inct, rows)[first..first + outct], inp[..])
  {
    hide Mul, Xor, Grid;
    ghost var g, x := Grid(m[..], inct, rows), inp[..];
    for j := 0 to outct
      invariant forall k :: 0 <= k < j ==> out[k] == 0
    {
      out[j] := 0;
    }
    for i := 0 to inct
      invariant forall k :: 0 <= k < outct ==> out[k] == DotTo(g[first + k], x, i)
    {
      for j := 0 to outct
        invariant forall k :: 0 <= k < outct ==> out[k] == DotTo(g[first + k], x, if k < j then i + 1 else i)
      {
        var e := Get(m, inct, rows, first + j, i);
        out[j] := GfAdd(out[j], GfMult(t, e, inp[i]));
      }
    }
  }

  method RsApplyChecksum(t: Tables, mat: RsMatrix, inp: array<byte>, out: array<byte>)
    requires t.Valid() && mat.IsGenerator()
    requires inp.Length == mat.data && out.Length == mat.cs && out != inp && out != mat.m
    modifies out
    ensures inp[..] + out[..] == Apply(mat.Generator(), inp[..])
    ensures forall p: Vec :: Checks(inp[..], out[..], p)
  {
    hide Mds, Grid, Encodes, Checks;
    var n := mat.data;
    ghost var g := mat.Generator();
    RsApply(t, mat.m, n + mat.cs, n, n, inp, mat.cs, out);
    SystematicPrefix(g, n, inp[..]);
    ChecksumsCheck(g, inp[..], out[..]);
  }

  method RsApplyReversal(t: Tables, mat: RsMatrix, inp: array<byte>, out: array<byte>)
    requires t.Valid() && Sized(mat.m[..], mat.data, mat.data)
    requires inp.Length == mat.data && out.Length == mat.data && out != inp && out != mat.m
    modifies out
    ensures out[..] == Apply(mat.Reversal(), inp[..])
  {
    var n := mat.data;
    RsApply(t, mat.m, n, 0, n, inp, n, out);
    assert mat.Reversal()[..n] == mat.Reversal();
  }

  /** The surviving symbols, data before checksums. */
  method Gather(data: array<byte>, cs: array<byte>, alive: array<byte>, n: nat, m: nat) returns (stuff: array<byte>)
    requires data.Length == n && cs.Length == m && alive.Length >= n + m
    requires |Marked(alive[..n + m], n + m)| == n
    ensures fresh(stuff) && stuff.Length == n
    ensures stuff[..] == Select(data[..] + cs[..], alive[..n + m], n + m)
  {
    hide Select, Marked;
    ghost var symbols, mask := data[..] + cs[..], alive[..n + m];
    stuff := new byte[n];
    NoneSelected(symbols, mask);
    var j := 0;
    SelectCount(symbols, mask, n + m);
    for i := 0 to n + m
      invariant j == |Select(symbols, mask, i)| <= n
      invariant stuff[..][..j] == Select(symbols, mask, i)
    {
      SelectStep(symbols, mask, i);
      SelectGrows(symbols, mask, i, n + m);
      SelectGrows(symbols, mask, i + 1, n + m);
      if alive[i] != 0 {
        var b := if i < n then data[i] else cs[i - n];
        assert b == symbols[i];
        ghost var was := stuff[..];
        stuff[j] := b;
        assert stuff[..] == was[j := b];
        PrefixGrows(was, j, b);
        j := j + 1;
      }
    }
    assert stuff[..n] == stuff[..];
  }

  /** Build a code, encode, keep any n of the n + m symbols, and decode: the data comes back. */
  method EncodeEraseDecode(t: Tables, n: nat, m: nat, data: array<byte>, alive: array<byte>)
      returns (decoded: array<byte>)
    requires t.Valid() && n + m < 255 && n > 1 && m > 0
    requires data.Length == n && alive.Length >= n + m && |Marked(alive[..n + m], n + m)| == n
    ensures decoded[..] == data[..]
  {
    hide Mds, Grid, Apply, ActAll, Systematic, Select, Marked, Encodes, Checks;
    var mat, _ := RsCreate(t, n, m);
    var cs := new byte[m];
    RsApplyChecksum(t, mat, data, cs);
    ghost var g := mat.Generator();
    var rev := RsCreateReversal(t, mat, alive);
    var stuff := Gather(data, cs, alive, n, m);
    decoded := new byte[n];
    RsApplyReversal(t, rev, stuff, decoded);
    assert ReversesAt(g, alive[..n + m], rev.Reversal(), n, data[..]);
  }
}
