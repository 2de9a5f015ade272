/** Vectors and elementary operations over GF(2^8). */
module LinearAlgebra {
  import opened Bits
  import opened GaloisField

  type Vec = seq<byte>
  type Matrix = seq<Vec>

  ghost predicate Shaped(m: Matrix, rows: nat, cols: nat) {
    |m| == rows && forall r :: 0 <= r < rows ==> |m[r]| == cols
  }

  ghost predicate IsZero(v: Vec) { forall i :: 0 <= i < |v| ==> v[i] == 0 }

  function Zeros(n: nat): Vec { seq(n, _ => 0) }

  function UnitVec(n: nat, i: nat): Vec { seq(n, j => if j == i then 1 else 0) }

  /** Inner product of the first k entries. */
  function DotTo(u: Vec, v: Vec, k: nat): byte
    requires k <= |u| && k <= |v|
  {
    if k == 0 then 0 else XorByte(DotTo(u, v, k - 1), Mul(u[k - 1], v[k - 1]))
  }

  function Dot(u: Vec, v: Vec): byte
    requires |u| == |v|
  {
    DotTo(u, v, |u|)
  }

  function Apply(m: Matrix, x: Vec): (y: Vec)
    requires forall r :: 0 <= r < |m| ==> |m[r]| == |x|
    ensures |y| == |m|
  {
    seq(|m|, r requires 0 <= r < |m| => Dot(m[r], x))
  }

  lemma {:induction false} DotToSame(u: Vec, v: Vec, u': Vec, v': Vec, k: nat)
    requires k <= |u| && k <= |v| && k <= |u'| && k <= |v'|
    requires forall i :: 0 <= i < k ==> u[i] == u'[i] && v[i] == v'[i]
    ensures DotTo(u, v, k) == DotTo(u', v', k)
  {
    hide Mul;
    if k > 0 { DotToSame(u, v, u', v', k - 1); }
  }

  lemma {:induction false} DotToComm(u: Vec, v: Vec, k: nat)
    requires k <= |u| && k <= |v|
    ensures DotTo(u, v, k) == DotTo(v, u, k)
  {
    hide Mul;
    if k > 0 {
      DotToComm(u, v, k - 1);
      MulComm(u[k - 1], v[k - 1]);
    }
  }

  function ScaleVec(c: byte, u: Vec): (w: Vec)
    ensures |w| == |u|
  {
    seq(|u|, i requires 0 <= i < |u| => Mul(c, u[i]))
  }

  function AddScaled(u: Vec, c: byte, w: Vec): (r: Vec)
    requires |u| == |w|
    ensures |r| == |u|
  {
    seq(|u|, i requires 0 <= i < |u| => XorByte(u[i], Mul(c, w[i])))
  }

  lemma {:induction false} DotToScale(c: byte, u: Vec, x: Vec, k: nat)
    requires k <= |u| == |x|
    ensures DotTo(ScaleVec(c, u), x, k) == Mul(c, DotTo(u, x, k))
  {
    hide Mul, Xor;
    MulUnits(c);
    if k > 0 {
      DotToScale(c, u, x, k - 1);
      MulAssoc(c, u[k - 1], x[k - 1]);
      MulXorRight(c, DotTo(u, x, k - 1), Mul(u[k - 1], x[k - 1]));
    }
  }

  lemma {:induction false} DotToAdd(u: Vec, c: byte, w: Vec, x: Vec, k: nat)
    requires k <= |u| == |w| == |x|
    ensures DotTo(AddScaled(u, c, w), x, k) == XorByte(DotTo(u, x, k), Mul(c, DotTo(w, x, k)))
  {
    hide Mul, Xor;
    MulUnits(c);
    XorZero(0);
    if k > 0 {
      DotToAdd(u, c, w, x, k - 1);
      MulXorLeft(u[k - 1], Mul(c, w[k - 1]), x[k - 1]);
      MulAssoc(c, w[k - 1], x[k - 1]);
      MulXorRight(c, DotTo(w, x, k - 1), Mul(w[k - 1], x[k - 1]));
      XorExchange(DotTo(u, x, k - 1), Mul(c, DotTo(w, x, k - 1)),
                  Mul(u[k - 1], x[k - 1]), Mul(c, Mul(w[k - 1], x[k - 1])));
    }
  }

  /** Changing one entry of a vector changes the product by the change times the other entry. */
  lemma {:induction false} DotToUpdate(u: Vec, x: Vec, i: nat, a: byte, k: nat)
    requires k <= |u| == |x| && i < |u|
    ensures DotTo(u[i := a], x, k)
         == if i < k then XorByte(DotTo(u, x, k), Mul(XorByte(a, u[i]), x[i])) else DotTo(u, x, k)
  {
    hide Mul, Xor;
    if k > 0 {
      DotToUpdate(u, x, i, a, k - 1);
      if i == k - 1 {
        MulXorLeft(a, u[i], x[i]);
        MoveLast(DotTo(u, x, k - 1), Mul(u[i], x[i]), Mul(a, x[i]));
      } else if i < k - 1 {
        SwapLast(DotTo(u, x, k - 1), Mul(XorByte(a, u[i]), x[i]), Mul(u[k - 1], x[k - 1]));
      }
    }
  }

  lemma MoveLast(d: byte, p: byte, q: byte)
    ensures XorByte(XorByte(d, p), XorByte(q, p)) == XorByte(d, q)
  {
    hide Xor;
    XorExchange(d, p, q, p);
    XorSelf(p);
    XorZero(Xor(d, q));
  }

  lemma SwapLast(d: byte, p: byte, q: byte)
    ensures XorByte(XorByte(d, p), q) == XorByte(XorByte(d, q), p)
  {
    hide Xor;
    XorAssoc(d, p, q);
    XorAssoc(d, q, p);
    XorComm(p, q);
  }

  /** If u is the i-th unit vector on its first k entries, the product picks x[i]. */
  lemma {:induction false} DotToUnit(u: Vec, x: Vec, i: nat, k: nat)
    requires k <= |u| == |x|
    requires forall c :: 0 <= c < k ==> u[c] == if c == i then 1 else 0
    ensures DotTo(u, x, k) == if i < k then x[i] else 0
  {
    hide Mul, Xor;
    XorZero(0);
    if k > 0 {
      DotToUnit(u, x, i, k - 1);
      MulUnits(x[k - 1]);
      XorZero(x[k - 1]);
      if i < k - 1 { XorZero(x[i]); }
    }
  }

  /** Entries where one factor is zero contribute nothing. */
  lemma {:induction false} DotToZeroTail(u: Vec, x: Vec, lo: nat, k: nat)
    requires lo <= k <= |u| == |x|
    requires forall c :: lo <= c < k ==> u[c] == 0 || x[c] == 0
    ensures DotTo(u, x, k) == DotTo(u, x, lo)
  {
    hide Mul, Xor;
    if k > lo {
      DotToZeroTail(u, x, lo, k - 1);
      MulUnits(u[k - 1]);
      MulUnits(x[k - 1]);
      XorZero(DotTo(u, x, lo));
    }
  }

  // ---- elementary operations

  /** Swap two entries, scale one, or add a multiple of one to another. */
  datatype Op = Swap(i: nat, f: nat) | Scale(i: nat, c: byte) | AddTo(j: nat, i: nat, c: byte)
  {
    ghost predicate Valid(n: nat) {
      match this
      case Swap(i, f) => i < n && f < n && i != f
      case Scale(i, c) => i < n && c != 0
      case AddTo(j, i, c) => j < n && i < n && i != j
    }

    ghost function Transpose(): Op {
      if AddTo? then AddTo(i, j, c) else this
    }

    ghost function Inverted(): Op
      requires Scale? ==> c != 0
    {
      if Scale? then Scale(i, Inverse(c)) else this
    }
  }

  ghost function Act(op: Op, u: Vec): (r: Vec)
    requires op.Valid(|u|)
    ensures |r| == |u|
  {
    match op
    case Swap(i, f) => u[i := u[f]][f := u[i]]
    case Scale(i, c) => u[i := Mul(c, u[i])]
    case AddTo(j, i, c) => u[j := XorByte(u[j], Mul(c, u[i]))]
  }

  ghost function ActColumns(op: Op, m: Matrix): (r: Matrix)
    requires forall k :: 0 <= k < |m| ==> op.Valid(|m[k]|)
    ensures |r| == |m| && forall k :: 0 <= k < |m| ==> |r[k]| == |m[k]|
  {
    seq(|m|, k requires 0 <= k < |m| => Act(op, m[k]))
  }

  ghost function ActRows(op: Op, m: Matrix): (r: Matrix)
    requires op.Valid(|m|)
    requires forall k :: 0 <= k < |m| ==> |m[k]| == |m[0]|
    ensures |r| == |m| && forall k :: 0 <= k < |m| ==> |r[k]| == |m[k]|
  {
    match op
    case Swap(i, f) => m[i := m[f]][f := m[i]]
    case Scale(i, c) => m[i := ScaleVec(c, m[i])]
    case AddTo(j, i, c) => m[j := AddScaled(m[j], c, m[i])]
  }

  lemma ActInverse(op: Op, u: Vec)
    requires op.Valid(|u|)
    ensures op.Inverted().Valid(|u|) && op.Transpose().Valid(|u|)
    ensures Act(op.Inverted(), Act(op, u)) == u
  {
    hide Mul, Xor;
    match op
    case Swap(i, f) =>
    case Scale(i, c) =>
      MulAssoc(Inverse(c), c, u[i]);
      MulUnits(u[i]);
    case AddTo(j, i, c) =>
      XorCancel(u[j], Mul(c, u[i]));
  }

  lemma ActZero(op: Op, u: Vec)
    requires op.Valid(|u|)
    ensures IsZero(Act(op, u)) <==> IsZero(u)
  {
    hide Mul, Xor;
    if IsZero(u) { ActOfZero(op, u); }
    if IsZero(Act(op, u)) {
      ActInverse(op, u);
      ActOfZero(op.Inverted(), Act(op, u));
    }
  }

  lemma ActOfZero(op: Op, u: Vec)
    requires op.Valid(|u|) && IsZero(u)
    ensures IsZero(Act(op, u))
  {
    hide Mul, Xor;
    if !op.Swap? { MulUnits(op.c); }
    XorZero(0);
  }

  /** A column operation on the row acts as its transpose on the vector. */
  lemma DotAct(op: Op, u: Vec, x: Vec)
    requires |u| == |x| && op.Valid(|u|)
    ensures op.Transpose().Valid(|u|)
    ensures Dot(Act(op, u), x) == Dot(u, Act(op.Transpose(), x))
  {
    hide Mul, Xor;
    var n := |u|;
    match op
    case Swap(i, f) =>
      var u', x' := u[i := u[f]], x[i := x[f]];
      DotToUpdate(u, x, i, u[f], n);
      DotToUpdate(u', x, f, u[i], n);
      DotToComm(u, x, n);
      DotToUpdate(x, u, i, x[f], n);
      DotToUpdate(x', u, f, x[i], n);
      DotToComm(Act(op, x), u, n);
      XorComm(u[f], u[i]);
      XorComm(x[f], x[i]);
      var du, dx := XorByte(u[f], u[i]), XorByte(x[f], x[i]);
      var d := DotTo(u, x, n);
      XorAssoc(d, Mul(du, x[i]), Mul(du, x[f]));
      XorComm(x[i], x[f]);
      MulXorRight(du, x[i], x[f]);
      XorAssoc(d, Mul(dx, u[i]), Mul(dx, u[f]));
      MulXorRight(dx, u[i], u[f]);
      MulComm(du, dx);
    case Scale(i, c) =>
      DotToUpdate(u, x, i, Mul(c, u[i]), n);
      DotToComm(u, x, n);
      DotToUpdate(x, u, i, Mul(c, x[i]), n);
      DotToComm(Act(op, x), u, n);
      MulXorLeft(Mul(c, u[i]), u[i], x[i]);
      MulXorLeft(Mul(c, x[i]), x[i], u[i]);
      MulAssoc(c, u[i], x[i]);
      MulAssoc(c, x[i], u[i]);
      MulComm(u[i], x[i]);
    case AddTo(j, i, c) =>
      DotToUpdate(u, x, j, XorByte(u[j], Mul(c, u[i])), n);
      DotToComm(u, x, n);
      DotToUpdate(x, u, i, XorByte(x[i], Mul(c, x[j])), n);
      DotToComm(Act(op.Transpose(), x), u, n);
      XorComm(u[j], Mul(c, u[i]));
      XorComm(x[i], Mul(c, x[j]));
      XorCancel(Mul(c, u[i]), u[j]);
      XorCancel(Mul(c, x[j]), x[i]);
      MulAssoc(c, u[i], x[j]);
      MulAssoc(c, x[j], u[i]);
      MulComm(u[i], x[j]);
  }

  /** A row operation on the matrix acts as itself on the product. */
  lemma ApplyActRows(op: Op, m: Matrix, x: Vec)
    requires op.Valid(|m|)
    requires forall k :: 0 <= k < |m| ==> |m[k]| == |x|
    ensures Apply(ActRows(op, m), x) == Act(op, Apply(m, x))
  {
    hide Mul, Xor;
    match op
    case Swap(i, f) =>
    case Scale(i, c) => DotToScale(c, m[i], x, |x|);
    case AddTo(j, i, c) => DotToAdd(m[j], c, m[i], x, |x|);
  }
}
