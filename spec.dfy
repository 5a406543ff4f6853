/**
  The mathematical meaning of the matrix operations, over grids of exact reals.

  A grid is a sequence of rows.  Functions that must know the number of
  columns even when there are no rows (a 0 x c matrix is the empty
  sequence) take it as a parameter.
 */
module MatrixSpec {
  import opened MatrixErrors

  type Grid = seq<seq<real>>

  /** Every row of `g` holds exactly `c` cells. */
  predicate HasCols(g: Grid, c: nat) {
    forall i :: 0 <= i < |g| ==> |g[i]| == c
  }

  predicate IsShape(g: Grid, r: nat, c: nat) {
    |g| == r && HasCols(g, c)
  }

  predicate IsSquare(g: Grid) {
    HasCols(g, |g|)
  }

  /** `a` and `b` have the same number of rows and, row by row, the same length. */
  predicate SameShape(a: Grid, b: Grid) {
    |a| == |b| && forall i :: 0 <= i < |a| ==> |a[i]| == |b[i]|
  }

  /** Two grids are equal when they agree cell by cell. */
  lemma {:induction false} GridExt(a: Grid, b: Grid)
    requires SameShape(a, b)
    requires forall i, j :: 0 <= i < |a| && 0 <= j < |a[i]| ==> a[i][j] == b[i][j]
    ensures a == b
  {
    forall i | 0 <= i < |a| ensures a[i] == b[i] {
      assert |a[i]| == |b[i]|;
      assert forall j :: 0 <= j < |a[i]| ==> a[i][j] == b[i][j];
    }
  }

  /** The `rows x cols` grid of zeros: what a freshly allocated matrix holds. */
  function Zero(r: nat, c: nat): (g: Grid)
    ensures IsShape(g, r, c)
  {
    seq(r, _ => seq(c, _ => 0.0))
  }

  /** `g` with cell (i, j) replaced by `v`. */
  function Update(g: Grid, i: nat, j: nat, v: real): (u: Grid)
    requires i < |g| && j < |g[i]|
    ensures SameShape(u, g)
  {
    g[i := g[i][j := v]]
  }

  /** Writing one cell changes that cell and no other. */
  lemma UpdateOnlyThatCell(g: Grid, i: nat, j: nat, v: real, x: nat, y: nat)
    requires i < |g| && j < |g[i]|
    requires x < |g| && y < |g[x]|
    ensures Update(g, i, j, v)[x][y] == if x == i && y == j then v else g[x][y]
  {
  }

  /** (row, col) names a cell of a `r x c` matrix. */
  predicate InRange(row: int, col: int, r: nat, c: nat) {
    0 <= row < r && 0 <= col < c
  }

  /** The element-access guard as the source writes it: it rejects only indices at or past the end. */
  predicate AccessGuardAsWritten(row: int, col: int, r: nat, c: nat): (pass: bool)
    ensures InRange(row, col, r, c) ==> pass
  {
    !(row >= r || col >= c)
  }

  /** On non-negative indices the as-written guard accepts exactly the cells of the matrix. */
  lemma AccessGuardOnNaturals(row: nat, col: nat, r: nat, c: nat)
    ensures AccessGuardAsWritten(row, col, r, c) <==> InRange(row, col, r, c)
  {
  }

  /** A negative row passes the as-written guard although it names no cell. */
  lemma AccessGuardAdmitsNegative(r: nat, c: nat)
    requires 0 < r && 0 < c
    ensures AccessGuardAsWritten(-1, 0, r, c) && !InRange(-1, 0, r, c)
  {
  }

  // ---------------------------------------------------------------------
  // Equality with tolerance

  /** The largest difference EqMatrix accepts between two cells (1e-7). */
  const Tolerance: real := 0.0000001

  function Abs(x: real): (r: real)
    ensures r >= 0.0 && (r == x || r == -x)
  {
    if x < 0.0 then -x else x
  }

  /** Two cells differ by at most the tolerance. */
  predicate Near(x: real, y: real) {
    Abs(x - y) <= Tolerance
  }

  /** Every pair of corresponding cells differs by at most the tolerance. */
  predicate Close(a: Grid, b: Grid)
    requires SameShape(a, b)
  {
    forall i, j :: 0 <= i < |a| && 0 <= j < |a[i]| ==> Near(a[i][j], b[i][j])
  }

  lemma CloseReflexive(a: Grid)
    ensures Close(a, a)
  {
  }

  lemma CloseSymmetric(a: Grid, b: Grid)
    requires SameShape(a, b)
    ensures Close(a, b) == Close(b, a)
  {
  }

  // ---------------------------------------------------------------------
  // Cell-wise arithmetic

  function Add(a: Grid, b: Grid): (s: Grid)
    requires SameShape(a, b)
    ensures SameShape(s, a)
  {
    seq(|a|, i requires 0 <= i < |a| => seq(|a[i]|, j requires 0 <= j < |a[i]| => a[i][j] + b[i][j]))
  }

  function Sub(a: Grid, b: Grid): (d: Grid)
    requires SameShape(a, b)
    ensures SameShape(d, a)
  {
    seq(|a|, i requires 0 <= i < |a| => seq(|a[i]|, j requires 0 <= j < |a[i]| => a[i][j] - b[i][j]))
  }

  function Scale(a: Grid, x: real): (s: Grid)
    ensures SameShape(s, a)
  {
    seq(|a|, i requires 0 <= i < |a| => seq(|a[i]|, j requires 0 <= j < |a[i]| => a[i][j] * x))
  }

  /** Subtracting what was added gives back the original grid. */
  lemma {:induction false} SubUndoesAdd(a: Grid, b: Grid)
    requires SameShape(a, b)
    ensures Sub(Add(a, b), b) == a
  {
    var s := Sub(Add(a, b), b);
    GridExt(s, a);
  }

  /** Cell-wise addition does not depend on the order of the operands. */
  lemma {:induction false} AddCommutes(a: Grid, b: Grid)
    requires SameShape(a, b)
    ensures Add(a, b) == Add(b, a)
  {
    GridExt(Add(a, b), Add(b, a));
  }

  /** Scaling twice is scaling once by the product; scaling by 1 changes nothing. */
  lemma {:induction false} ScaleComposes(a: Grid, x: real, y: real)
    ensures Scale(Scale(a, x), y) == Scale(a, x * y)
    ensures Scale(a, 1.0) == a
  {
    forall i, j | 0 <= i < |a| && 0 <= j < |a[i]|
      ensures Scale(Scale(a, x), y)[i][j] == Scale(a, x * y)[i][j]
    {
      assert a[i][j] * x * y == a[i][j] * (x * y);
    }
    GridExt(Scale(Scale(a, x), y), Scale(a, x * y));
    GridExt(Scale(a, 1.0), a);
  }

  // ---------------------------------------------------------------------
  // Matrix product

  /** The sum of the products u[k] * v[k], accumulated from k = 0 upwards. */
  function Dot(u: seq<real>, v: seq<real>): real
    requires |u| == |v|
  {
    if |u| == 0 then 0.0 else Dot(u[..|u| - 1], v[..|v| - 1]) + u[|u| - 1] * v[|v| - 1]
  }

  /** Column `j` of `b`. */
  function Column(b: Grid, j: nat): (col: seq<real>)
    requires forall t :: 0 <= t < |b| ==> j < |b[t]|
    ensures |col| == |b| && forall t :: 0 <= t < |b| ==> col[t] == b[t][j]
  {
    seq(|b|, t requires 0 <= t < |b| => b[t][j])
  }

  /** The product of `a` (whose rows have |b| cells) and `b` (whose rows have `p` cells). */
  function Mul(a: Grid, b: Grid, p: nat): (m: Grid)
    requires HasCols(a, |b|) && HasCols(b, p)
    ensures IsShape(m, |a|, p)
  {
    seq(|a|, i requires 0 <= i < |a| => seq(p, j requires 0 <= j < p => Dot(a[i], Column(b, j))))
  }

  function Identity(n: nat): (e: Grid)
    ensures IsShape(e, n, n)
  {
    seq(n, i => seq(n, j => if i == j then 1.0 else 0.0))
  }

  /** The dot product with the `j`-th unit vector, over the first `k` positions, picks u[j] (if j < k). */
  lemma {:induction false} DotUnit(u: seq<real>, e: seq<real>, j: nat, k: nat)
    requires |u| == |e| && k <= |u|
    requires forall t :: 0 <= t < |e| ==> e[t] == if t == j then 1.0 else 0.0
    ensures Dot(u[..k], e[..k]) == if j < k then u[j] else 0.0
  {
    if k > 0 {
      DotUnit(u, e, j, k - 1);
      assert u[..k][..k - 1] == u[..k - 1];
      assert e[..k][..k - 1] == e[..k - 1];
    }
  }

  /** Multiplying by the identity on the right gives the matrix back. */
  lemma {:induction false} MulIdentityRight(a: Grid, c: nat)
    requires HasCols(a, c)
    ensures Mul(a, Identity(c), c) == a
  {
    var m := Mul(a, Identity(c), c);
    forall i, j | 0 <= i < |a| && 0 <= j < c ensures m[i][j] == a[i][j] {
      var e := Column(Identity(c), j);
      DotUnit(a[i], e, j, c);
      assert a[i][..c] == a[i] && e[..c] == e;
    }
    GridExt(m, a);
  }

  // ---------------------------------------------------------------------
  // Transpose

  /** The transpose of a grid whose rows have `c` cells: `c` rows of |m| cells. */
  function Transposed(m: Grid, c: nat): (t: Grid)
    requires HasCols(m, c)
    ensures IsShape(t, c, |m|)
    ensures forall i, j :: 0 <= i < c && 0 <= j < |m| ==> t[i][j] == m[j][i]
  {
    seq(c, i requires 0 <= i < c => seq(|m|, j requires 0 <= j < |m| => m[j][i]))
  }

  /** Transposing twice restores the original grid. */
  lemma {:induction false} TransposeInvolutive(m: Grid, c: nat)
    requires HasCols(m, c)
    ensures Transposed(Transposed(m, c), |m|) == m
  {
    var t := Transposed(Transposed(m, c), |m|);
    GridExt(t, m);
  }

  /** What the buffer that Transpose fills as written ends up as. */
  datatype Filled = InBounds(cells: Grid) | Overrun

  /** Cell (i, j) lies inside an `r x c` buffer. */
  predicate Fits(i: nat, j: nat, r: nat, c: nat) {
    i < r && j < c
  }

  /**
    Some write of the as-written Transpose loop over a `rows x cols` matrix,
    which stores cell (row, col) at (col, row) of a `rows x cols` buffer,
    lands outside that buffer.
   */
  predicate Overruns(rows: nat, cols: nat) {
    exists row, col :: 0 <= row < rows && 0 <= col < cols && !Fits(col, row, rows, cols)
  }

  /**
    Transpose as the source writes it: the buffer is |m| x c (not c x |m|)
    and m[row][col] is stored at [col][row]; a buffer cell no write reaches
    keeps its fresh value 0.
   */
  function TransposeAsWritten(m: Grid, c: nat): (f: Filled)
    requires HasCols(m, c)
    ensures f.InBounds? ==> IsShape(f.cells, |m|, c)
  {
    if Overruns(|m|, c) then
      Overrun
    else
      InBounds(seq(|m|, i requires 0 <= i < |m| =>
        seq(c, j requires 0 <= j < c => if Fits(j, i, |m|, c) then m[j][i] else 0.0)))
  }

  /** On square input the as-written Transpose agrees with the transpose. */
  lemma {:induction false} TransposeAsWrittenSquare(m: Grid)
    requires IsSquare(m)
    ensures TransposeAsWritten(m, |m|) == InBounds(Transposed(m, |m|))
  {
    var f := TransposeAsWritten(m, |m|);
    assert f.InBounds?;
    GridExt(f.cells, Transposed(m, |m|));
  }

  /** On every non-empty non-square input the as-written Transpose writes outside its buffer. */
  lemma {:induction false} TransposeAsWrittenOverruns(m: Grid, c: nat)
    requires HasCols(m, c) && 0 < |m| && 0 < c && |m| != c
    ensures TransposeAsWritten(m, c) == Overrun
    ensures IsShape(Transposed(m, c), c, |m|)
  {
    if |m| < c {
      assert !Fits(|m|, 0, |m|, c);
    } else {
      assert !Fits(0, c, |m|, c);
    }
  }

  /** A 0 x 3 matrix comes out of the as-written Transpose as 0 x 3, not 3 x 0. */
  lemma TransposeAsWrittenKeepsShape()
    ensures TransposeAsWritten([], 3) == InBounds([])
    ensures Transposed([], 3) == [[], [], []]
  {
  }

  // ---------------------------------------------------------------------
  // Minors, determinant, cofactors, inverse

  /** Index `i` of a minor, as an index of the matrix it was cut from when `k` was deleted. */
  function Skip(i: nat, k: nat): nat {
    if i < k then i else i + 1
  }

  /** `s` without its element at `k`. */
  function Delete<T>(s: seq<T>, k: nat): (d: seq<T>)
    requires k < |s|
    ensures |d| == |s| - 1
    ensures forall i :: 0 <= i < |d| ==> d[i] == s[Skip(i, k)]
  {
    s[..k] + s[k + 1..]
  }

  /** The square matrix `m` with row `r` and column `c` deleted. */
  function Minor(m: Grid, r: nat, c: nat): (s: Grid)
    requires IsSquare(m) && r < |m| && c < |m|
    ensures IsSquare(s) && |s| == |m| - 1
    ensures forall i, j :: 0 <= i < |s| && 0 <= j < |s| ==> s[i][j] == m[Skip(i, r)][Skip(j, c)]
  {
    var rows := Delete(m, r);
    seq(|rows|, i requires 0 <= i < |rows| => Delete(rows[i], c))
  }

  /** +1 for an even index, -1 for an odd one. */
  function Sign(k: nat): (s: real)
    ensures s == 1.0 || s == -1.0
  {
    if k % 2 == 0 then 1.0 else -1.0
  }

  /**
    The determinant: 1 for 0 x 0, the entry for 1 x 1, ad - cb for 2 x 2,
    and cofactor expansion along the first row above that.
   */
  function Det(m: Grid): real
    requires IsSquare(m)
    decreases |m|, 1
  {
    if |m| == 0 then 1.0
    else if |m| == 1 then m[0][0]
    else if |m| == 2 then m[0][0] * m[1][1] - m[1][0] * m[0][1]
    else Expansion(m, |m|)
  }

  /** The sum of the first `k` terms of the expansion of `m` along row 0. */
  function Expansion(m: Grid, k: nat): real
    requires IsSquare(m) && 0 < |m| && k <= |m|
    decreases |m|, 0, k
  {
    if k == 0 then 0.0
    else Expansion(m, k - 1) + ExpansionTerm(m, k - 1)
  }

  /** Term `k` of the expansion along row 0: the signed entry times the determinant of its minor. */
  function ExpansionTerm(m: Grid, k: nat): real
    requires IsSquare(m) && k < |m|
    decreases |m|, 0, 0
  {
    Sign(k) * m[0][k] * Det(Minor(m, 0, k))
  }

  /** One more term of the expansion along row 0. */
  lemma ExpansionStep(m: Grid, k: nat, x: real, d: real, t: real)
    requires IsSquare(m) && k < |m|
    requires x == m[0][k] && d == Det(Minor(m, 0, k)) && t == Sign(k) * x * d
    ensures Expansion(m, k + 1) == Expansion(m, k) + t
  {
    assert Expansion(m, k + 1) == Expansion(m, k) + ExpansionTerm(m, k);
  }

  /** The full expansion along row 0 is the determinant from size 3 up. */
  lemma ExpansionIsDet(m: Grid)
    requires IsSquare(m) && 3 <= |m|
    ensures Det(m) == Expansion(m, |m|)
  {
  }

  /** The determinant of a 2 x 2 matrix [[a, b], [c, d]] is a*d - b*c. */
  lemma DetTwo(a: real, b: real, c: real, d: real)
    ensures Det([[a, b], [c, d]]) == a * d - b * c
  {
  }

  /** The determinant of a 3 x 3 matrix is given by the rule of Sarrus. */
  lemma {:induction false} DetThree(m: Grid)
    requires IsSquare(m) && |m| == 3
    ensures Det(m) == m[0][0] * m[1][1] * m[2][2] + m[0][1] * m[1][2] * m[2][0]
                    + m[0][2] * m[1][0] * m[2][1] - m[0][2] * m[1][1] * m[2][0]
                    - m[0][0] * m[1][2] * m[2][1] - m[0][1] * m[1][0] * m[2][2]
  {
    var m0, m1, m2 := Minor(m, 0, 0), Minor(m, 0, 1), Minor(m, 0, 2);
    assert Det(m0) == m[1][1] * m[2][2] - m[2][1] * m[1][2];
    assert Det(m1) == m[1][0] * m[2][2] - m[2][0] * m[1][2];
    assert Det(m2) == m[1][0] * m[2][1] - m[2][0] * m[1][1];
    assert Sign(0) == 1.0 && Sign(1) == -1.0 && Sign(2) == 1.0;
    assert Expansion(m, 1) == m[0][0] * Det(m0);
    assert Expansion(m, 2) == m[0][0] * Det(m0) - m[0][1] * Det(m1);
    assert Det(m) == Expansion(m, 3) == m[0][0] * Det(m0) - m[0][1] * Det(m1) + m[0][2] * Det(m2);
  }

  /** Deleting row 0 and column 0 of the identity leaves the identity. */
  lemma {:induction false} MinorOfIdentity(n: nat)
    requires 0 < n
    ensures Minor(Identity(n), 0, 0) == Identity(n - 1)
  {
    GridExt(Minor(Identity(n), 0, 0), Identity(n - 1));
  }

  /** Along the first row of the identity only the first term of the expansion survives. */
  lemma {:induction false} ExpansionOfIdentity(n: nat, k: nat)
    requires 3 <= n && 1 <= k <= n
    ensures Expansion(Identity(n), k) == Det(Identity(n - 1))
  {
    if k == 1 {
      MinorOfIdentity(n);
    } else {
      ExpansionOfIdentity(n, k - 1);
    }
  }

  /** The identity has determinant 1 at every size. */
  lemma {:induction false} DetIdentity(n: nat)
    ensures Det(Identity(n)) == 1.0
  {
    if n >= 3 {
      ExpansionOfIdentity(n, n);
      DetIdentity(n - 1);
    }
  }

  /** The cofactor matrix: entry (i, j) is Det(Minor(m, i, j)) with the sign of i + j. */
  function Cofactors(m: Grid): (k: Grid)
    requires IsSquare(m)
    ensures IsShape(k, |m|, |m|)
  {
    seq(|m|, i requires 0 <= i < |m| =>
      seq(|m|, j requires 0 <= j < |m| => Det(Minor(m, i, j)) * Sign(i + j)))
  }

  /** Cell (i, j) of the cofactor matrix. */
  lemma CofactorEntry(m: Grid, i: nat, j: nat, d: real)
    requires IsSquare(m) && i < |m| && j < |m| && d == Det(Minor(m, i, j))
    ensures Cofactors(m)[i][j] == d * Sign(i + j)
  {
  }

  /**
    The inverse as InverseMatrix computes it: the determinant is checked
    first; 1 x 1 is the reciprocal of the entry; otherwise the transposed
    cofactor matrix scaled by 1 / Det, which the 0 x 0 matrix cannot reach
    because the cofactor matrix rejects sizes below 2.
   */
  function Inverse(m: Grid): (r: Result<Grid>)
    requires IsSquare(m)
    ensures r.Success? <==> 0 < |m| && Det(m) != 0.0
    ensures r.Failure? ==> r.error == if |m| == 0 then NotSquare else SingularMatrix
    ensures r.Success? ==> IsShape(r.value, |m|, |m|)
  {
    var det := Det(m);
    if det == 0.0 then Failure(SingularMatrix)
    else if |m| == 1 then Success([[1.0 / m[0][0]]])
    else if |m| < 2 then Failure(NotSquare)
    else Success(Scale(Transposed(Cofactors(m), |m|), 1.0 / det))
  }

  /** A 1 x 1 inverse, multiplied back, gives the identity. */
  lemma InverseOneByOne(a: real)
    requires a != 0.0
    ensures Inverse([[a]]).Success?
    ensures Mul([[a]], Inverse([[a]]).value, 1) == Identity(1)
  {
    var inv := Inverse([[a]]).value;
    assert inv == [[1.0 / a]];
    var p := Mul([[a]], inv, 1);
    assert p[0][0] == Dot([a], [1.0 / a]);
    assert Dot([a], [1.0 / a]) == 0.0 + a * (1.0 / a);
    GridExt(p, Identity(1));
  }

  /** The product of two 2 x 2 grids, written out. */
  lemma {:induction false} MulTwo(p: Grid, q: Grid)
    requires IsShape(p, 2, 2) && IsShape(q, 2, 2)
    ensures Mul(p, q, 2) == [[p[0][0] * q[0][0] + p[0][1] * q[1][0], p[0][0] * q[0][1] + p[0][1] * q[1][1]],
                             [p[1][0] * q[0][0] + p[1][1] * q[1][0], p[1][0] * q[0][1] + p[1][1] * q[1][1]]]
  {
    var m := Mul(p, q, 2);
    var w := [[p[0][0] * q[0][0] + p[0][1] * q[1][0], p[0][0] * q[0][1] + p[0][1] * q[1][1]],
              [p[1][0] * q[0][0] + p[1][1] * q[1][0], p[1][0] * q[0][1] + p[1][1] * q[1][1]]];
    forall i, j | 0 <= i < 2 && 0 <= j < 2 ensures m[i][j] == w[i][j] {
      var u, v := p[i], Column(q, j);
      assert Dot(u[..1], v[..1]) == u[0] * v[0] by {
        assert u[..1][..0] == [] && v[..1][..0] == [];
      }
      assert m[i][j] == Dot(u, v) == u[0] * v[0] + u[1] * v[1];
    }
    GridExt(m, w);
  }

  /** The cofactor matrix of [[a, b], [c, d]] is [[d, -c], [-b, a]]. */
  lemma {:induction false} CofactorsTwo(m: Grid)
    requires IsSquare(m) && |m| == 2
    ensures Cofactors(m) == [[m[1][1], -m[1][0]], [-m[0][1], m[0][0]]]
  {
    var k := Cofactors(m);
    var w := [[m[1][1], -m[1][0]], [-m[0][1], m[0][0]]];
    forall i, j | 0 <= i < 2 && 0 <= j < 2 ensures k[i][j] == w[i][j] {
      var s := Minor(m, i, j);
      assert Det(s) == s[0][0] == m[1 - i][1 - j];
    }
    GridExt(k, w);
  }

  /** From size 2 up, a non-singular matrix is inverted through its cofactor matrix. */
  lemma InverseByCofactors(m: Grid)
    requires IsSquare(m) && 2 <= |m| && Det(m) != 0.0
    ensures Inverse(m) == Success(Scale(Transposed(Cofactors(m), |m|), 1.0 / Det(m)))
  {
  }

  /** A 2 x 2 grid transposed and scaled, written out. */
  lemma {:induction false} ScaleTransposedTwo(k: Grid, x: real)
    requires IsShape(k, 2, 2)
    ensures Scale(Transposed(k, 2), x) == [[k[0][0] * x, k[1][0] * x], [k[0][1] * x, k[1][1] * x]]
  {
    var t := Scale(Transposed(k, 2), x);
    var w := [[k[0][0] * x, k[1][0] * x], [k[0][1] * x, k[1][1] * x]];
    forall i, j | 0 <= i < 2 && 0 <= j < 2 ensures t[i][j] == w[i][j] {
      assert t[i][j] == k[j][i] * x;
    }
    GridExt(t, w);
  }

  /** The identity that makes [[d, -b], [-c, a]] / (ad - cb) the inverse of [[a, b], [c, d]]. */
  lemma TwoByTwoProduct(a: real, b: real, c: real, d: real, x: real)
    requires (a * d - c * b) * x == 1.0
    ensures a * (d * x) + b * (-c * x) == 1.0
    ensures a * (-b * x) + b * (a * x) == 0.0
    ensures c * (d * x) + d * (-c * x) == 0.0
    ensures c * (-b * x) + d * (a * x) == 1.0
  {
  }

  /** The inverse of [[a, b], [c, d]] is [[d, -b], [-c, a]] / (ad - cb). */
  lemma {:induction false} InverseTwoEntries(m: Grid)
    requires IsSquare(m) && |m| == 2 && Det(m) != 0.0
    ensures Inverse(m).Success? && IsShape(Inverse(m).value, 2, 2)
    ensures var inv, x := Inverse(m).value, 1.0 / Det(m);
      inv[0][0] == m[1][1] * x && inv[0][1] == -m[0][1] * x &&
      inv[1][0] == -m[1][0] * x && inv[1][1] == m[0][0] * x
  {
    var x := 1.0 / Det(m);
    InverseByCofactors(m);
    CofactorsTwo(m);
    var k := [[m[1][1], -m[1][0]], [-m[0][1], m[0][0]]];
    ScaleTransposedTwo(k, x);
  }

  /** A 2 x 2 inverse, multiplied back, gives the identity. */
  lemma {:induction false} InverseTwoByTwo(m: Grid)
    requires IsSquare(m) && |m| == 2 && Det(m) != 0.0
    ensures Inverse(m).Success?
    ensures Mul(m, Inverse(m).value, 2) == Identity(2)
  {
    var a, b, c, d := m[0][0], m[0][1], m[1][0], m[1][1];
    var det := Det(m);
    assert det == a * d - c * b;
    var x := 1.0 / det;
    assert det * x == 1.0;
    InverseTwoEntries(m);
    var inv := Inverse(m).value;
    MulTwo(m, inv);
    TwoByTwoProduct(a, b, c, d, x);
    var p := Mul(m, inv, 2);
    assert p[0][0] == 1.0 && p[0][1] == 0.0 && p[1][0] == 0.0 && p[1][1] == 1.0;
    GridExt(p, Identity(2));
  }

  // ---------------------------------------------------------------------
  // Resizing

  /**
    The `r2 x c2` grid that SetSize leaves: cells that existed in the old
    `|m| x c` grid keep their value, new cells are 0.
   */
  function Resized(m: Grid, c: nat, r2: nat, c2: nat): (g: Grid)
    requires HasCols(m, c)
    ensures IsShape(g, r2, c2)
  {
    seq(r2, i requires 0 <= i < r2 => seq(c2, j requires 0 <= j < c2 => if i < |m| && j < c then m[i][j] else 0.0))
  }

  /** Growing a matrix and then shrinking it back to its old shape gives back the old matrix. */
  lemma {:induction false} ResizeRoundTrip(m: Grid, c: nat, r2: nat, c2: nat)
    requires HasCols(m, c) && |m| <= r2 && c <= c2
    ensures Resized(Resized(m, c, r2, c2), c2, |m|, c) == m
  {
    GridExt(Resized(Resized(m, c, r2, c2), c2, |m|, c), m);
  }

  /** Resizing to the current shape changes nothing. */
  lemma {:induction false} ResizeSameShape(m: Grid, c: nat)
    requires HasCols(m, c)
    ensures Resized(m, c, |m|, c) == m
  {
    GridExt(Resized(m, c, |m|, c), m);
  }
}
