/**
  Worked examples from the matrix library's own test suite, stated over the
  specification functions (lemmas) and over the matrix object (methods that
  build a matrix, operate on it and return what the test reads back).
 */
module MatrixScenarios {
  import opened MatrixErrors
  import opened MatrixSpec
  import opened MatrixOop

  /** The 4 x 4 matrix of the determinant test. */
  const FourByFour: Grid := [[9.0, 2.0, 2.0, 4.0], [3.0, 4.0, 4.0, 4.0], [4.0, 4.0, 9.0, 9.0], [1.0, 1.0, 5.0, 1.0]]

  /** The determinants of the four minors along row 0 of `FourByFour`. */
  lemma FourByFourMinors()
    ensures Det(Minor(FourByFour, 0, 0)) == -80.0 && Det(Minor(FourByFour, 0, 1)) == -44.0
    ensures Det(Minor(FourByFour, 0, 2)) == 5.0 && Det(Minor(FourByFour, 0, 3)) == -11.0
  {
    DetThree(Minor(FourByFour, 0, 0));
    DetThree(Minor(FourByFour, 0, 1));
    DetThree(Minor(FourByFour, 0, 2));
    DetThree(Minor(FourByFour, 0, 3));
  }

  /** Its determinant, by cofactor expansion along row 0, is -578. */
  lemma {:induction false} FourByFourDeterminant()
    ensures Det(FourByFour) == -578.0
  {
    var m := FourByFour;
    FourByFourMinors();
    ExpansionStep(m, 0, 9.0, -80.0, -720.0);
    ExpansionStep(m, 1, 2.0, -44.0, 88.0);
    ExpansionStep(m, 2, 2.0, 5.0, 10.0);
    ExpansionStep(m, 3, 4.0, -11.0, 44.0);
    ExpansionIsDet(m);
  }

  /** The two singular 3 x 3 matrices of the inverse tests. */
  const SingularA: Grid := [[1.0, 1.0, 3.0], [4.0, 4.0, 6.0], [4.0, 4.0, 9.0]]
  const SingularB: Grid := [[1.0, 4.0, 1.0], [3.0, 7.0, 2.0], [3.0, 2.0, 1.0]]

  /** Both have determinant 0, so inverting them is refused as singular. */
  lemma SingularMatricesHaveNoInverse()
    ensures Det(SingularA) == 0.0 && Inverse(SingularA) == Failure(SingularMatrix)
    ensures Det(SingularB) == 0.0 && Inverse(SingularB) == Failure(SingularMatrix)
  {
    DetThree(SingularA);
    DetThree(SingularB);
  }

  /** The small determinants of the tests: 1 for 0 x 0, the entry for 1 x 1, ad - bc for 2 x 2. */
  lemma SmallDeterminants()
    ensures Det([]) == 1.0
    ensures Det([[10.0]]) == 10.0
    ensures Det([[1.1, 3.5], [-2.0, 4.0]]) == 11.4
  {
    DetTwo(1.1, 3.5, -2.0, 4.0);
  }

  /** The inverse of [[5]] is [[0.2]]. */
  lemma InverseOfFive()
    ensures Inverse([[5.0]]) == Success([[0.2]])
  {
  }

  /** Transposing [[1, 2], [4, 3]] gives [[1, 4], [2, 3]]. */
  lemma {:induction false} TransposeTwoByTwo()
    ensures Transposed([[1.0, 2.0], [4.0, 3.0]], 2) == [[1.0, 4.0], [2.0, 3.0]]
  {
    GridExt(Transposed([[1.0, 2.0], [4.0, 3.0]], 2), [[1.0, 4.0], [2.0, 3.0]]);
  }

  /** The cofactors of [[50, -2], [0, 35]] are [[35, 0], [2, 50]]. */
  lemma {:induction false} ComplementsTwoByTwo()
    ensures Cofactors([[50.0, -2.0], [0.0, 35.0]]) == [[35.0, 0.0], [2.0, 50.0]]
  {
    CofactorsTwo([[50.0, -2.0], [0.0, 35.0]]);
  }

  /** The 3 x 3 matrix of the second cofactor test and the cofactors it expects. */
  const ComplementsIn: Grid := [[1.0, 2.0, 3.0], [0.0, 4.0, 2.0], [5.0, 2.0, 1.0]]
  const ComplementsOut: Grid := [[0.0, 10.0, -20.0], [4.0, -14.0, 8.0], [-8.0, -2.0, 4.0]]

  /** A 2 x 2 minor's determinant, in terms of the four cells of the 3 x 3 matrix it keeps. */
  lemma MinorOfThree(m: Grid, r: nat, c: nat)
    requires IsSquare(m) && |m| == 3 && r < 3 && c < 3
    ensures var s := Minor(m, r, c);
      Det(s) == m[Skip(0, r)][Skip(0, c)] * m[Skip(1, r)][Skip(1, c)] - m[Skip(1, r)][Skip(0, c)] * m[Skip(0, r)][Skip(1, c)]
  {
  }

  lemma {:induction false} ComplementsThreeByThree()
    ensures Cofactors(ComplementsIn) == ComplementsOut
  {
    var m, k := ComplementsIn, Cofactors(ComplementsIn);
    forall i, j | 0 <= i < 3 && 0 <= j < 3
      ensures k[i][j] == ComplementsOut[i][j]
    {
      MinorOfThree(m, i, j);
      assert Sign(i + j) == if (i + j) % 2 == 0 then 1.0 else -1.0;
    }
    GridExt(k, ComplementsOut);
  }

  /** The operands of the 3 x 2 by 2 x 4 product test, filled row by row with 0, 1, 2, ... */
  const ProductLeft: Grid := [[0.0, 1.0], [2.0, 3.0], [4.0, 5.0]]
  const ProductRight: Grid := [[0.0, 1.0, 2.0, 3.0], [4.0, 5.0, 6.0, 7.0]]
  const ProductExpected: Grid := [[4.0, 5.0, 6.0, 7.0], [12.0, 17.0, 22.0, 27.0], [20.0, 29.0, 38.0, 47.0]]

  /** A dot product of two pairs. */
  lemma DotOfPairs(u: seq<real>, v: seq<real>)
    requires |u| == 2 && |v| == 2
    ensures Dot(u, v) == u[0] * v[0] + u[1] * v[1]
  {
    assert Dot(u[..1], v[..1]) == Dot(u[..1][..0], v[..1][..0]) + u[0] * v[0];
    assert u[..1][..0] == [] && v[..1][..0] == [];
  }

  lemma {:induction false} ProductThreeByFour()
    ensures Mul(ProductLeft, ProductRight, 4) == ProductExpected
  {
    var p := Mul(ProductLeft, ProductRight, 4);
    forall i, j | 0 <= i < 3 && 0 <= j < 4
      ensures p[i][j] == ProductExpected[i][j]
    {
      DotOfPairs(ProductLeft[i], Column(ProductRight, j));
    }
    GridExt(p, ProductExpected);
  }

  /**
    The resize test: a 2 x 3 matrix with 2.2 written at (1, 1) is grown to
    4 rows, kept at 3 columns, and 1.2 is written at (3, 2); both cells read
    back what was written.
   */
  method ResizeKeepsWrittenCells() returns (first: real, second: real)
    ensures first == 2.2 && second == 1.2
  {
    var m := new Matrix.Sized(2, 3);
    var o := m.Set(1, 1, 2.2);
    o := m.SetRows(4);
    o := m.SetCols(3);
    o := m.Set(3, 2, 1.2);
    var a := m.At(1, 1);
    var b := m.At(3, 2);
    first, second := a.value, b.value;
  }

  /** Setting only the row count of a 0 x 0 matrix fails, since it has no columns. */
  method EmptyMatrixRejectsSetRows() returns (res: Outcome)
    ensures res == Fail(InvalidDimension)
  {
    var m := new Matrix.Empty();
    res := m.SetRows(2);
  }

  /** A 3 x 2 matrix with 1.1 at (1, 1), times 2, holds 2.2 there. */
  method ScaleOneCell() returns (cell: real)
    ensures cell == 2.2
  {
    var m := new Matrix.Sized(3, 2);
    var o := m.Set(1, 1, 1.1);
    var s := m.TimesNumber(2.0);
    var c := s.At(1, 1);
    cell := c.value;
  }

  /** A matrix equals its own deep copy. */
  method CopyIsEqual(m: Matrix) returns (eq: bool)
    requires m.Valid()
    ensures eq
  {
    var c := new Matrix.Copy(m);
    CloseReflexive(m.Contents);
    eq := m.EqMatrix(c);
  }

  /** `m += o` followed by `m -= o` gives back the cells `m` started with. */
  method AddThenSubtract(m: Matrix, o: Matrix) returns (res: Outcome)
    requires m.Valid() && o.Valid() && m != o && m.data != o.data
    modifies m, m.data
    ensures m.Valid() && m.rows == old(m.rows) && m.cols == old(m.cols)
    ensures res.Pass? <==> m.rows == o.rows && m.cols == o.cols
    ensures m.Contents == old(m.Contents)
  {
    res := m.AddAssign(o);
    if res.Pass? {
      res := m.SubAssign(o);
      SubUndoesAdd(old(m.Contents), o.Contents);
    }
  }

  /** The matrix that scalar `*` returns owns its buffer: writing to it leaves the operand as it was. */
  method ResultOwnsItsBuffer() returns (original: real, written: real)
    ensures original == 1.1 && written == 42.0
  {
    var m := new Matrix.Sized(3, 2);
    var o := m.Set(1, 1, 1.1);
    var s := m.TimesNumber(2.0);
    o := s.Set(1, 1, 42.0);
    var a := m.At(1, 1);
    var b := s.At(1, 1);
    original, written := a.value, b.value;
  }

  /**
    A moved-from matrix is a usable empty matrix: it can be scaled, compared
    with another empty matrix, and resized again.
   */
  method MovedFromIsUsable() returns (eq: bool, res: Outcome)
    ensures eq && res == Pass
  {
    var a := new Matrix.Sized(2, 2);
    var b := new Matrix.Take(a);
    a.MulNumber(2.0);
    var e := new Matrix.Empty();
    e.MulNumber(3.0);
    eq := a.EqMatrix(e);
    var c := new Matrix.Sized(1, 1);
    c.MoveAssign(b);
    res := b.SetSize(1, 1);
  }
}
