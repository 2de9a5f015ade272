/** Systematic Reed-Solomon coding: build the generator, encode, and invert any n surviving rows. */
module ReedSolomon {
  import opened Bits
  import opened GaloisField
  import opened GaloisTables
  import opened LinearAlgebra
  import opened MdsCode
  import opened Polynomials
  import opened RowMajor

  class RsMatrix {
    const data: nat
    const cs: nat
    const m: array<byte>

    constructor (data: nat, cs: nat, m: array<byte>)
      ensures this.data == data && this.cs == cs && this.m == m
    {
      this.data := data;
      this.cs := cs;
      this.m := m;
    }

    /** A generator made by rs_create: data + cs rows. */
    ghost function Generator(): Matrix
      requires Sized(m[..], data, data + cs)
      reads m
    {
      Grid(m[..], data, data + cs)
    }

    ghost predicate IsGenerator()
      reads m
    {
      && 1 < data && 0 < cs && data + cs < 255
      && Sized(m[..], data, data + cs)
      && Mds(Generator(), data)
      && Systematic(Generator(), data)
      && Encodes(Generator(), data)
    }

    /** An inverse made by rs_create_reversal: data rows. */
    ghost function Reversal(): Matrix
      requires Sized(m[..], data, data)
      reads m
    {
      Grid(m[..], data, data)
    }
  }

  ghost predicate Systematic(g: Matrix, n: nat)
    requires n <= |g|
  {
    forall r :: 0 <= r < n ==> g[r] == UnitVec(n, r)
  }

  ghost predicate UnitRows(g: Matrix, n: nat, i: nat)
    requires i <= |g|
  {
    forall r :: 0 <= r < i ==> g[r] == UnitVec(n, r)
  }

  /** The matrix after a list of column operations. */
  ghost function ActAll(ops: seq<Op>, g: Matrix, n: nat): (r: Matrix)
    requires Shaped(g, |g|, n)
    requires forall k :: 0 <= k < |ops| ==> ops[k].Valid(n)
    ensures Shaped(r, |g|, n)
  {
    if ops == [] then g
    else ActColumns(ops[|ops| - 1], ActAll(ops[..|ops| - 1], g, n))
  }

  lemma ActAllStep(ops: seq<Op>, op: Op, g: Matrix, n: nat)
    requires Shaped(g, |g|, n) && op.Valid(n)
    requires forall k :: 0 <= k < |ops| ==> ops[k].Valid(n)
    ensures ActAll(ops + [op], g, n) == ActColumns(op, ActAll(ops, g, n))
  {
    assert (ops + [op])[..|ops|] == ops;
  }

  // ---- which code it is

  /** The values of p at the first n points are encoded as its values at all of them. */
  ghost predicate EncodesAt(g: Matrix, n: nat, p: Vec)
    requires Shaped(g, |g|, n) && n <= |g| <= 256
  {
    |p| == n > 0 ==> Apply(g, ScaledValues(p, n)) == ScaledValues(p, |g|)
  }

  /** Some polynomial has the data as its values at the first n points. */
  ghost predicate FitsAt(n: nat, data: Vec) {
    |data| == n <= 256 ==> exists p: Vec :: |p| == n > 0 && ScaledValues(p, n) == data
  }

  ghost predicate Encodes(g: Matrix, n: nat) {
    && Shaped(g, |g|, n) && n <= |g| <= 256
    && (forall p: Vec :: EncodesAt(g, n, p)) && forall data: Vec :: FitsAt(n, data)
  }

  /** The vector the matrix after the operations maps to where the one before them maps p. */
  ghost function Undone(ops: seq<Op>, p: Vec): (x: Vec)
    requires forall k :: 0 <= k < |ops| ==> ops[k].Valid(|p|)
    ensures |x| == |p|
  {
    if ops == [] then p
    else
      var y := Undone(ops[..|ops| - 1], p);
      ActInverse(ops[|ops| - 1], y);
      var op := ops[|ops| - 1].Transpose();
      ActInverse(op, y);
      Act(op.Inverted(), y)
  }

  lemma {:induction false} ApplyUndone(ops: seq<Op>, g: Matrix, p: Vec)
    requires Shaped(g, |g|, |p|) && forall k :: 0 <= k < |ops| ==> ops[k].Valid(|p|)
    ensures Apply(ActAll(ops, g, |p|), Undone(ops, p)) == Apply(g, p)
  {
    hide Dot, Act;
    if ops != [] {
      var op, ops' := ops[|ops| - 1], ops[..|ops| - 1];
      var y := Undone(ops', p);
      ApplyUndone(ops', g, p);
      InvertedTwice(op.Transpose(), y);
      ApplyActColumns(op, ActAll(ops', g, |p|), Undone(ops, p));
    }
  }

  /** A column operation on the matrix is its transpose on the vector. */
  lemma ApplyActColumns(op: Op, g: Matrix, x: Vec)
    requires Shaped(g, |g|, |x|) && op.Valid(|x|)
    ensures op.Transpose().Valid(|x|)
    ensures Apply(ActColumns(op, g), x) == Apply(g, Act(op.Transpose(), x))
  {
    hide Dot, Act;
    ActInverse(op, x);
    forall r | 0 <= r < |g|
      ensures Dot(ActColumns(op, g)[r], x) == Dot(g[r], Act(op.Transpose(), x))
    {
      DotAct(op, g[r], x);
    }
  }

  /** And where the one before them maps the vector to. */
  ghost function Done(ops: seq<Op>, x: Vec): (p: Vec)
    requires forall k :: 0 <= k < |ops| ==> ops[k].Valid(|x|)
    ensures |p| == |x|
    decreases |ops|
  {
    if ops == [] then x
    else
      ActInverse(ops[|ops| - 1], x);
      Done(ops[..|ops| - 1], Act(ops[|ops| - 1].Transpose(), x))
  }

  lemma {:induction false} ApplyDone(ops: seq<Op>, g: Matrix, x: Vec)
    requires Shaped(g, |g|, |x|) && forall k :: 0 <= k < |ops| ==> ops[k].Valid(|x|)
    ensures Apply(ActAll(ops, g, |x|), x) == Apply(g, Done(ops, x))
    decreases |ops|
  {
    hide Dot, Act;
    if ops != [] {
      var op, ops' := ops[|ops| - 1], ops[..|ops| - 1];
      ApplyActColumns(op, ActAll(ops', g, |x|), x);
      ApplyDone(ops', g, Act(op.Transpose(), x));
    }
  }

  lemma SystematicPrefix(g: Matrix, n: nat, x: Vec)
    requires Shaped(g, |g|, n) && n <= |g| && |x| == n && Systematic(g, n)
    ensures x + Apply(g[n..], x) == Apply(g, x)
  {
    hide Mul, Xor;
    forall i | 0 <= i < n
      ensures Dot(g[i], x) == x[i]
    {
      DotToUnit(g[i], x, i, n);
    }
  }

  /** The initial matrix, made systematic by column operations, encodes polynomials. */
  lemma SystematicEncodes(ops: seq<Op>, n: nat, rows: nat)
    requires 0 < n <= rows <= 256 && forall k :: 0 <= k < |ops| ==> ops[k].Valid(n)
    requires Systematic(ActAll(ops, InitialMatrix(n, rows), n), n)
    ensures Encodes(ActAll(ops, InitialMatrix(n, rows), n), n)
  {
    hide Dot, Act, ScaledValues, InitialMatrix, ActAll, Undone, Done, Systematic, UnitVec;
    var a := InitialMatrix(n, rows);
    var g := ActAll(ops, a, n);
    forall p: Vec
      ensures EncodesAt(g, n, p)
    {
      if |p| == n {
        var x := Undone(ops, p);
        ApplyUndone(ops, a, p);
        InitialEvaluates(p, rows);
        SystematicPrefix(g, n, x);
        PrefixValues(p, n, rows);
        assert x == Apply(g, x)[..n];
      }
    }
    forall data: Vec
      ensures FitsAt(n, data)
    {
      if |data| == n {
        var p := Done(ops, data);
        ApplyDone(ops, a, data);
        InitialEvaluates(p, rows);
        SystematicPrefix(g, n, data);
        PrefixValues(p, n, rows);
        assert data == Apply(g, data)[..n];
      }
    }
  }

  /** The checksums go with the data as the later values of a polynomial go with the first ones. */
  ghost predicate Checks(data: Vec, cs: Vec, p: Vec) {
    |p| == |data| > 0 && |data| + |cs| <= 256 && data == ScaledValues(p, |data|) ==>
      data + cs == ScaledValues(p, |data| + |cs|)
  }

  lemma ChecksumsCheck(g: Matrix, data: Vec, cs: Vec)
    requires Encodes(g, |data|) && |g| == |data| + |cs| && data + cs == Apply(g, data)
    ensures forall p: Vec :: Checks(data, cs, p)
  {
    hide ScaledValues, Apply;
    forall p: Vec
      ensures Checks(data, cs, p)
    {
      assert EncodesAt(g, |data|, p);
    }
  }

  lemma PrefixValues(p: Vec, n: nat, rows: nat)
    requires p != [] && n <= rows <= 256
    ensures ScaledValues(p, rows)[..n] == ScaledValues(p, n)
  {
    hide Mul;
  }

  /** There is only one such code. */
  lemma OneCode(g: Matrix, h: Matrix, n: nat)
    requires Encodes(g, n) && Encodes(h, n) && |g| == |h|
    ensures g == h
  {
    hide Mul, Xor, ScaledValues, Apply;
    forall r, j | 0 <= r < |g| && 0 <= j < n
      ensures g[r][j] == h[r][j]
    {
      var e := UnitVec(n, j);
      assert FitsAt(n, e);
      if n <= 256 {
        var p: Vec :| |p| == n > 0 && ScaledValues(p, n) == e;
        assert EncodesAt(g, n, p) && EncodesAt(h, n, p);
        assert Apply(g, e) == Apply(h, e);
        ApplyUnit(g, n, j, r);
        ApplyUnit(h, n, j, r);
      }
    }
    assert forall r :: 0 <= r < |g| ==> g[r] == h[r];
  }

  /** The smallest one, as the elimination makes it from (1, 0), (1, 1) and (2, 4). */
  lemma SmallestCode(g: Matrix)
    requires Encodes(g, 2) && |g| == 3
    ensures g == [[1, 0], [0, 1], [6, 4]]
  {
    hide Apply;
    SmallestValues();
    assert EncodesAt(g, 2, [1, 1]) && EncodesAt(g, 2, [0, 1]);
    assert UnitVec(2, 0) == [1, 0] && UnitVec(2, 1) == [0, 1];
    forall r, j | 0 <= r < 3 && 0 <= j < 2
      ensures g[r][j] == Apply(g, UnitVec(2, j))[r]
    {
      ApplyUnit(g, 2, j, r);
    }
    assert forall r :: 0 <= r < 3 ==> g[r] == [g[r][0], g[r][1]];
  }

  lemma SmallestValues()
    ensures ScaledValues([1, 1], 3) == [1, 0, 6] && ScaledValues([1, 1], 2) == [1, 0]
    ensures ScaledValues([0, 1], 3) == [0, 1, 4] && ScaledValues([0, 1], 2) == [0, 1]
  {
    hide Mul, Xor;
    MulStep(2, 2);
    MulStep(1, 4);
    MulStep(2, 3);
    MulStep(1, 6);
    MulStep(0, 8);
    MulStep(0, 12);
    assert Double(2) == 4 && Double(3) == 6 && Double(4) == 8 && Double(6) == 12;
    MulUnits(1);
    MulUnits(2);
    MulUnits(0);
    XorZero(0);
    XorZero(4);
    XorZero(6);
    XorZero(1);
    XorZero(2);
    XorSelf(1);
    OneTwo();
    forall a: byte, t: byte | a < 2 && 1 <= t < 3
      ensures Eval([a, 1], t) == XorByte(a, Mul(t, 1))
    {
      LinearValue(a, 1, t);
    }
  }

  lemma OneTwo()
    ensures Xor(1, 2) == 3
  {}

  lemma LinearValue(a: byte, b: byte, t: byte)
    ensures Eval([a, b], t) == XorByte(a, Mul(t, b))
  {
    hide Mul, Xor;
    assert [a, b][1..] == [b] && [b][1..] == [];
    assert Eval([b], t) == XorByte(b, Mul(t, 0));
    MulUnits(t);
    XorZero(b);
  }

  lemma ApplyUnit(g: Matrix, n: nat, j: nat, r: nat)
    requires Shaped(g, |g|, n) && j < n && r < |g|
    ensures Apply(g, UnitVec(n, j))[r] == g[r][j]
  {
    hide Mul;
    DotToComm(g[r], UnitVec(n, j), n);
    DotToUnit(UnitVec(n, j), g[r], j, n);
  }

  // ---- column operations, one loop over the rows each

  method SwapColumns(a: array<byte>, n: nat, rows: nat, i: nat, f: nat)
    requires Sized(a[..], n, rows) && i < n && f < n && i != f
    modifies a
    ensures Sized(a[..], n, rows)
    ensures Grid(a[..], n, rows) == ActColumns(Swap(i, f), old(Grid(a[..], n, rows)))
  {
    ghost var g := Grid(a[..], n, rows);
    for k := 0 to rows
      invariant Sized(a[..], n, rows)
      invariant forall r :: 0 <= r < rows ==>
        Grid(a[..], n, rows)[r] == if r < k then Act(Swap(i, f), g[r]) else g[r]
    {
      var x := Get(a, n, rows, k, i);
      var y := Get(a, n, rows, k, f);
      Set(a, n, rows, k, i, y);
      Set(a, n, rows, k, f, x);
    }
  }

  method ScaleColumn(t: Tables, a: array<byte>, n: nat, rows: nat, i: nat, inv: byte)
    requires t.Valid() && Sized(a[..], n, rows) && i < n && inv != 0
    modifies a
    ensures Sized(a[..], n, rows)
    ensures Grid(a[..], n, rows) == ActColumns(Scale(i, inv), old(Grid(a[..], n, rows)))
  {
    hide Mul;
    ghost var g := Grid(a[..], n, rows);
    for k := 0 to rows
      invariant Sized(a[..], n, rows)
      invariant forall r :: 0 <= r < rows ==>
        Grid(a[..], n, rows)[r] == if r < k then Act(Scale(i, inv), g[r]) else g[r]
    {
      var x := Get(a, n, rows, k, i);
      Set(a, n, rows, k, i, GfMult(t, inv, x));
    }
  }

  method AddColumn(t: Tables, a: array<byte>, n: nat, rows: nat, j: nat, i: nat, val: byte)
    requires t.Valid() && Sized(a[..], n, rows) && i < n && j < n && i != j
    modifies a
    ensures Sized(a[..], n, rows)
    ensures Grid(a[..], n, rows) == ActColumns(AddTo(j, i, val), old(Grid(a[..], n, rows)))
  {
    hide Mul, Xor;
    ghost var g := Grid(a[..], n, rows);
    for k := 0 to rows
      invariant Sized(a[..], n, rows)
      invariant forall r :: 0 <= r < rows ==>
        Grid(a[..], n, rows)[r] == if r < k then Act(AddTo(j, i, val), g[r]) else g[r]
    {
      var x := Get(a, n, rows, k, i);
      var y := Get(a, n, rows, k, j);
      Set(a, n, rows, k, j, GfAdd(y, GfMult(t, val, x)));
    }
  }

  // ---- rs_create

  method FillRow(t: Tables, a: array<byte>, n: nat, ghost rows: nat, i: byte)
    requires t.Valid() && Sized(a[..], n, rows) && i < rows
    modifies a
    ensures Sized(a[..], n, rows)
    ensures Grid(a[..], n, rows) == old(Grid(a[..], n, rows))[i := InitialRow(n, i)]
  {
    hide Mul, PowersFrom, Grid, Mix, UnitVec;
    var acc: byte := i;
    ghost var g, target := Grid(a[..], n, rows), InitialRow(n, i);
    MixEnds(target, g[i]);
    if n > 0 { RowStart(n, i); }
    for j := 0 to n
      invariant Sized(a[..], n, rows)
      invariant Grid(a[..], n, rows) == g[i := Mix(target, g[i], j)]
      invariant i != 0 && j < n ==> acc == target[j]
    {
      MixStep(target, g[i], j);
      RowNext(n, i, j);
      if i == 0 && j == 0 {
        Set(a, n, rows, i, j, 1);
      } else if i == 0 {
        Set(a, n, rows, i, j, 0);
      } else {
        Set(a, n, rows, i, j, acc);
        acc := GfMult(t, acc, i);
      }
    }
  }

  lemma RowStart(n: nat, i: byte)
    requires n > 0
    ensures InitialRow(n, i)[0] == if i == 0 then 1 else i
  {
    if i != 0 { PowersStart(i, i, n); }
  }

  lemma RowNext(n: nat, i: byte, j: nat)
    requires j < n
    ensures i == 0 ==> InitialRow(n, i)[j] == if j == 0 then 1 else 0
    ensures i != 0 && j + 1 < n ==> InitialRow(n, i)[j + 1] == Mul(InitialRow(n, i)[j], i)
  {
    hide Mul;
    if i != 0 && j + 1 < n { PowersNext(i, i, n, j); }
  }

  method FillInitial(t: Tables, a: array<byte>, n: nat, rows: nat)
    requires t.Valid() && Sized(a[..], n, rows) && rows <= 255
    modifies a
    ensures Sized(a[..], n, rows)
    ensures Grid(a[..], n, rows) == InitialMatrix(n, rows)
  {
    hide InitialRow;
    for i := 0 to rows
      invariant Sized(a[..], n, rows)
      invariant forall r :: 0 <= r < i ==> Grid(a[..], n, rows)[r] == InitialRow(n, r)
    {
      FillRow(t, a, n, rows, i);
    }
  }

  // ---- rs_create

  lemma ColumnOpKeepsUnits(op: Op, g: Matrix, n: nat, i: nat)
    requires Shaped(g, |g|, n) && i <= |g| && op.Valid(n) && UnitRows(g, n, i)
    requires op.i >= i && (op.Swap? ==> op.f >= i)
    ensures UnitRows(ActColumns(op, g), n, i)
  {
    hide Mul, Xor;
    if !op.Swap? { MulUnits(op.c); }
    XorZero(0);
    XorZero(1);
    forall r | 0 <= r < i
      ensures Act(op, g[r]) == UnitVec(n, r)
    {}
  }

  /** First column j > i with a nonzero entry in row i. */
  method FindColumn(a: array<byte>, n: nat, ghost rows: nat, i: nat) returns (f: nat)
    requires Sized(a[..], n, rows) && i < n <= rows
    requires exists j :: i < j < n && Grid(a[..], n, rows)[i][j] != 0
    ensures i < f < n && Grid(a[..], n, rows)[i][f] != 0
    ensures forall j :: i < j < f ==> Grid(a[..], n, rows)[i][j] == 0
  {
    f := i + 1;
    while f < n
      invariant i < f <= n
      invariant forall j :: i < j < f ==> Grid(a[..], n, rows)[i][j] == 0
    {
      var x := Get(a, n, rows, i, f);
      if x != 0 { return; }
      f := f + 1;
    }
    assert false;
  }

  /** What holds between two column operations of rs_create. */
  ghost predicate Reduced(g: Matrix, ops: seq<Op>, n: nat, rows: nat, i: nat) {
    && 0 < n <= rows <= 255 && i <= n
    && (forall k :: 0 <= k < |ops| ==> ops[k].Valid(n))
    && Shaped(g, rows, n)
    && g == ActAll(ops, InitialMatrix(n, rows), n)
    && Mds(g, n)
    && Separated(g, n)
    && UnitRows(g, n, i)
  }

  lemma ReducedStep(g: Matrix, ops: seq<Op>, op: Op, n: nat, rows: nat, i: nat)
    requires Reduced(g, ops, n, rows, i) && op.Valid(n)
    requires op.i >= i && (op.Swap? ==> op.f >= i)
    ensures Reduced(ActColumns(op, g), ops + [op], n, rows, i)
  {
    hide Mds, Separated, InitialMatrix, Act, ActAll, UnitRows;
    ActAllStep(ops, op, InitialMatrix(n, rows), n);
    MdsKept(op, g, n);
    SeparatedKept(op, g, n);
    ColumnOpKeepsUnits(op, g, n, i);
  }

  /** Bring a nonzero entry to the diagonal, then make it one. */
  method MakePivot(t: Tables, a: array<byte>, n: nat, rows: nat, i: nat, ghost ops: seq<Op>)
      returns (ghost ops': seq<Op>)
    requires t.Valid() && Sized(a[..], n, rows) && i < n
    requires Reduced(Grid(a[..], n, rows), ops, n, rows, i)
    modifies a
    ensures Sized(a[..], n, rows)
    ensures Reduced(Grid(a[..], n, rows), ops', n, rows, i)
    ensures Grid(a[..], n, rows)[i][i] == 1
  {
    hide Mds, Separated, Mul, Xor, Act, ActAll, UnitRows, InitialMatrix;
    ops' := ops;
    var d := Get(a, n, rows, i, i);
    if d == 0 {
      PivotAfter(Grid(a[..], n, rows), ops, n, rows, i);
      var f := FindColumn(a, n, rows, i);
      ReducedStep(Grid(a[..], n, rows), ops', Swap(i, f), n, rows, i);
      ActAt(Swap(i, f), Grid(a[..], n, rows)[i]);
      SwapColumns(a, n, rows, i, f);
      ops' := ops' + [Swap(i, f)];
    }
    d := Get(a, n, rows, i, i);
    assert d != 0;
    if d != 1 {
      var inv := GfDiv(t, 1, d);
      MulUnits(d);
      ReducedStep(Grid(a[..], n, rows), ops', Scale(i, inv), n, rows, i);
      ActAt(Scale(i, inv), Grid(a[..], n, rows)[i]);
      ScaleColumn(t, a, n, rows, i, inv);
      ops' := ops' + [Scale(i, inv)];
    }
  }

  lemma PivotAfter(g: Matrix, ops: seq<Op>, n: nat, rows: nat, i: nat)
    requires Reduced(g, ops, n, rows, i) && i < n && g[i][i] == 0
    ensures exists j :: i < j < n && g[i][j] != 0
  {
    ColumnPivotExists(g, n, i);
  }

  lemma ActAt(op: Op, u: Vec)
    requires op.Valid(|u|)
    ensures op.Swap? ==> Act(op, u)[op.i] == u[op.f]
    ensures op.Scale? ==> Act(op, u)[op.i] == Mul(op.c, u[op.i])
    ensures op.AddTo? ==> Act(op, u)[op.j] == XorByte(u[op.j], Mul(op.c, u[op.i]))
    ensures op.AddTo? ==> forall k :: 0 <= k < |u| && k != op.j ==> Act(op, u)[k] == u[k]
  {
    hide Mul, Xor;
  }

  /** Clear the rest of row i. */
  method ClearRow(t: Tables, a: array<byte>, n: nat, rows: nat, i: nat, ghost ops: seq<Op>)
      returns (ghost ops': seq<Op>)
    requires t.Valid() && Sized(a[..], n, rows) && i < n
    requires Reduced(Grid(a[..], n, rows), ops, n, rows, i)
    requires Grid(a[..], n, rows)[i][i] == 1
    modifies a
    ensures Sized(a[..], n, rows)
    ensures Reduced(Grid(a[..], n, rows), ops', n, rows, i + 1)
  {
    hide Mds, Separated, Mul, Xor, Act, ActAll, InitialMatrix;
    ops' := ops;
    for j := 0 to n
      invariant Sized(a[..], n, rows)
      invariant Reduced(Grid(a[..], n, rows), ops', n, rows, i)
      invariant Grid(a[..], n, rows)[i][i] == 1
      invariant forall c :: 0 <= c < j && c != i ==> Grid(a[..], n, rows)[i][c] == 0
    {
      if j == i { continue; }
      var val := Get(a, n, rows, i, j);
      if val == 0 { continue; }
      ReducedStep(Grid(a[..], n, rows), ops', AddTo(j, i, val), n, rows, i);
      ActAt(AddTo(j, i, val), Grid(a[..], n, rows)[i]);
      MulUnits(val);
      XorSelf(val);
      AddColumn(t, a, n, rows, j, i, val);
      ops' := ops' + [AddTo(j, i, val)];
    }
    assert Grid(a[..], n, rows)[i] == UnitVec(n, i);
  }

  /** The generator is the initial matrix times invertible column operations; its top
      square is the identity, and any n of its rows are independent. */
  method RsCreate(t: Tables, n: nat, m: nat) returns (mat: RsMatrix, ghost ops: seq<Op>)
    requires t.Valid()
    requires n + m < 255 && n > 1 && m > 0
    ensures fresh(mat) && fresh(mat.m)
    ensures mat.data == n && mat.cs == m
    ensures mat.IsGenerator() && Encodes(mat.Generator(), n)
    ensures forall k :: 0 <= k < |ops| ==> ops[k].Valid(n)
    ensures mat.Generator() == ActAll(ops, InitialMatrix(n, n + m), n)
  {
    hide Mds, Separated, Mul, Xor, Act, InitialMatrix, Encodes;
    var rows := n + m;
    var a := new byte[rows * n](_ => 0);
    FillInitial(t, a, n, rows);
    InitialIsMds(n, rows);
    InitialIsSeparated(n, rows);
    ops := [];
    for i := 0 to n
      invariant Sized(a[..], n, rows)
      invariant Reduced(Grid(a[..], n, rows), ops, n, rows, i)
    {
      ops := MakePivot(t, a, n, rows, i, ops);
      ops := ClearRow(t, a, n, rows, i, ops);
    }
    SystematicEncodes(ops, n, rows);
    mat := new RsMatrix(n, m, a);
  }
}
