/** Flat arrays read as rows of equal width: entry j of row k is at k * width + j. */
module RowMajor {
  import opened Arithmetic

  function Row<T>(s: seq<T>, w: nat, k: nat): (r: seq<T>)
    requires k * w + w <= |s|
    ensures |r| == w
  {
    s[k * w..k * w + w]
  }

  ghost predicate Sized<T>(s: seq<T>, w: nat, rows: nat) { |s| == rows * w }

  lemma RowFits(w: nat, rows: nat, k: nat)
    requires k < rows
    ensures k * w + w <= rows * w
  {
    MulMonotone(w, k + 1, rows);
    MulSuccessor(w, k);
  }

  lemma RowsApart(w: nat, k: nat, l: nat)
    requires k < l
    ensures k * w + w <= l * w
  {
    RowFits(w, l, k);
  }

  function Grid<T>(s: seq<T>, w: nat, rows: nat): (g: seq<seq<T>>)
    requires Sized(s, w, rows)
    ensures |g| == rows && forall k :: 0 <= k < rows ==> |g[k]| == w
  {
    seq(rows, k requires 0 <= k < rows => RowFits(w, rows, k); Row(s, w, k))
  }

  lemma GridEntry<T>(s: seq<T>, w: nat, rows: nat, k: nat, j: nat)
    requires Sized(s, w, rows) && k < rows && j < w
    ensures k * w + j < |s| && Grid(s, w, rows)[k][j] == s[k * w + j]
  {
    RowFits(w, rows, k);
  }

  lemma GridUpdate<T>(s: seq<T>, w: nat, rows: nat, k: nat, j: nat, v: T)
    requires Sized(s, w, rows) && k < rows && j < w
    ensures k * w + j < |s|
    ensures Grid(s[k * w + j := v], w, rows)
         == Grid(s, w, rows)[k := Grid(s, w, rows)[k][j := v]]
  {
    RowFits(w, rows, k);
    var s' := s[k * w + j := v];
    forall l | 0 <= l < rows
      ensures Grid(s', w, rows)[l] == if l == k then Grid(s, w, rows)[k][j := v] else Grid(s, w, rows)[l]
    {
      RowFits(w, rows, l);
      if l < k { RowsApart(w, l, k); }
      if k < l { RowsApart(w, k, l); }
    }
  }

  method Get<T>(a: array<T>, w: nat, ghost rows: nat, k: nat, j: nat) returns (v: T)
    requires Sized(a[..], w, rows) && k < rows && j < w
    ensures v == Grid(a[..], w, rows)[k][j]
  {
    RowFits(w, rows, k);
    v := a[k * w + j];
  }

  method Set<T>(a: array<T>, w: nat, ghost rows: nat, k: nat, j: nat, v: T)
    requires Sized(a[..], w, rows) && k < rows && j < w
    modifies a
    ensures Sized(a[..], w, rows)
    ensures Grid(a[..], w, rows) == old(Grid(a[..], w, rows)[k := Grid(a[..], w, rows)[k][j := v]])
  {
    GridUpdate(a[..], w, rows, k, j, v);
    ghost var s := a[..];
    a[k * w + j] := v;
    assert a[..] == s[k * w + j := v];
  }

  lemma SameBefore<T>(s: seq<T>, s': seq<T>, c: nat, a: nat, b: nat)
    requires a <= b <= c <= |s| == |s'| && s[..c] == s'[..c]
    ensures s[a..b] == s'[a..b]
  {
    assert s[a..b] == s[..c][a..b] && s'[a..b] == s'[..c][a..b];
  }

  lemma SameAfter<T>(s: seq<T>, s': seq<T>, c: nat, a: nat, b: nat)
    requires c <= a <= b <= |s| == |s'| && s[c..] == s'[c..]
    ensures s[a..b] == s'[a..b]
  {
    forall i | a <= i < b
      ensures s[i] == s'[i]
    {
      assert s[i] == s[c..][i - c] && s'[i] == s'[c..][i - c];
    }
  }

  lemma RowElsewhere<T>(s: seq<T>, s': seq<T>, w: nat, rows: nat, k: nat, l: nat)
    requires Sized(s, w, rows) && Sized(s', w, rows) && k < rows && k * w + w <= |s| && l < rows && l != k
    requires s'[..k * w] == s[..k * w] && s'[k * w + w..] == s[k * w + w..]
    ensures l * w + w <= |s| == |s'| && Row(s', w, l) == Row(s, w, l)
  {
    RowFits(w, rows, l);
    if l < k { RowsApart(w, l, k); } else { RowsApart(w, k, l); }
    SameOutside(s, s', k * w, l * w, w);
  }

  lemma SameOutside<T>(s: seq<T>, s': seq<T>, b: nat, a: nat, w: nat)
    requires b + w <= |s| == |s'| && a + w <= |s| && (a + w <= b || b + w <= a)
    requires s'[..b] == s[..b] && s'[b + w..] == s[b + w..]
    ensures s'[a..a + w] == s[a..a + w]
  {
    if a + w <= b { SameBefore(s, s', b, a, a + w); } else { SameAfter(s, s', b + w, a, a + w); }
  }

  /** Overwriting exactly the bytes of row k. */
  lemma GridReplaceRow<T>(s: seq<T>, s': seq<T>, w: nat, rows: nat, k: nat)
    requires Sized(s, w, rows) && Sized(s', w, rows) && k < rows && k * w + w <= |s|
    requires s'[..k * w] == s[..k * w] && s'[k * w + w..] == s[k * w + w..]
    ensures Grid(s', w, rows) == Grid(s, w, rows)[k := Row(s', w, k)]
  {
    hide Row;
    forall l | 0 <= l < rows
      ensures Grid(s', w, rows)[l] == if l == k then Row(s', w, k) else Grid(s, w, rows)[l]
    {
      if l != k { RowElsewhere(s, s', w, rows, k, l); }
    }
  }

  /** The first i entries of u, then those of v: a row being overwritten from the left. */
  function Mix<T>(u: seq<T>, v: seq<T>, i: nat): (w: seq<T>)
    requires i <= |u| == |v|
    ensures |w| == |v|
  {
    u[..i] + v[i..]
  }

  lemma MixStep<T>(u: seq<T>, v: seq<T>, i: nat)
    requires i < |u| == |v|
    ensures Mix(u, v, i)[i] == v[i]
    ensures Mix(u, v, i)[i := u[i]] == Mix(u, v, i + 1)
  {}

  lemma MixEnds<T>(u: seq<T>, v: seq<T>)
    requires |u| == |v|
    ensures Mix(u, v, 0) == v && Mix(u, v, |u|) == u
  {}

  /** Copy from over row k. */
  method SetRow<T>(a: array<T>, w: nat, rows: nat, k: nat, from: seq<T>)
    requires Sized(a[..], w, rows) && k < rows && |from| == w
    modifies a
    ensures Sized(a[..], w, rows)
    ensures Grid(a[..], w, rows) == old(Grid(a[..], w, rows))[k := from]
  {
    hide Grid, Mix;
    ghost var g := Grid(a[..], w, rows);
    MixEnds(from, g[k]);
    for i := 0 to w
      invariant Sized(a[..], w, rows)
      invariant Grid(a[..], w, rows) == g[k := Mix(from, g[k], i)]
    {
      MixStep(from, g[k], i);
      Set(a, w, rows, k, i, from[i]);
    }
  }
}
