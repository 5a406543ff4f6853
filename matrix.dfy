/**
  The matrix object: a `rows x cols` buffer of reals that its methods read,
  update in place, replace or hand over to another matrix.
 */
module MatrixOop {
  import opened MatrixErrors
  import opened MatrixSpec

  class Matrix {
    var rows: nat
    var cols: nat
    var data: array2<real>
    /** The cells, row by row, as the methods' contracts speak of them. */
    ghost var Contents: Grid

    /** The buffer has exactly the shape the two dimensions announce, and holds `Contents`. */
    ghost predicate Valid()
      reads this, data
    {
      data.Length0 == rows && data.Length1 == cols && IsShape(Contents, rows, cols) &&
      forall i, j :: 0 <= i < rows && 0 <= j < cols ==> data[i, j] == Contents[i][j]
    }

    // -------------------------------------------------------------------
    // Construction, copy and move

    /** The default constructor: a 0 x 0 matrix. */
    constructor Empty()
      ensures Valid() && rows == 0 && cols == 0 && Contents == [] && fresh(data)
    {
      rows, cols := 0, 0;
      data := new real[0, 0];
      Contents := [];
    }

    /** A `r x c` matrix whose cells are all 0. */
    constructor Sized(r: nat, c: nat)
      ensures Valid() && fresh(data)
      ensures rows == r && cols == c && Contents == Zero(r, c)
    {
      rows, cols := r, c;
      data := new real[r, c]((_, _) => 0.0);
      Contents := Zero(r, c);
    }

    /** The sized constructor, which rejects a negative dimension. */
    static method Create(r: int, c: int) returns (res: Result<Matrix>)
      ensures res.Failure? <==> r < 0 || c < 0
      ensures res.Failure? ==> res.error == InvalidDimension
      ensures res.Success? ==>
        var m := res.value;
        fresh(m) && fresh(m.data) && m.Valid() && m.rows == r && m.cols == c && m.Contents == Zero(r, c)
    {
      if r < 0 || c < 0 {
        return Failure(InvalidDimension);
      }
      var m := new Matrix.Sized(r, c);
      return Success(m);
    }

    /** Copies every cell of `src` into `dst`, a distinct buffer of the same shape. */
    static method CopyCells(dst: array2<real>, src: array2<real>)
      requires dst.Length0 == src.Length0 && dst.Length1 == src.Length1 && dst != src
      modifies dst
      ensures forall i, j :: 0 <= i < dst.Length0 && 0 <= j < dst.Length1 ==> dst[i, j] == src[i, j]
    {
      var row := 0;
      while row < dst.Length0
        invariant 0 <= row <= dst.Length0
        invariant forall x, y :: 0 <= x < row && 0 <= y < dst.Length1 ==> dst[x, y] == src[x, y]
      {
        var col := 0;
        while col < dst.Length1
          invariant 0 <= col <= dst.Length1
          invariant forall x, y :: 0 <= x < row && 0 <= y < dst.Length1 ==> dst[x, y] == src[x, y]
          invariant forall y :: 0 <= y < col ==> dst[row, y] == src[row, y]
        {
          dst[row, col] := src[row, col];
          col := col + 1;
        }
        row := row + 1;
      }
    }

    /** The copy constructor: a deep copy, with a buffer of its own. */
    constructor Copy(other: Matrix)
      requires other.Valid()
      ensures Valid() && fresh(data)
      ensures rows == other.rows && cols == other.cols && Contents == other.Contents
    {
      rows, cols := other.rows, other.cols;
      data := new real[other.rows, other.cols]((_, _) => 0.0);
      Contents := other.Contents;
      new;
      CopyCells(data, other.data);
    }

    /** The move constructor: takes over the buffer of `other` and leaves it 0 x 0. */
    constructor Take(other: Matrix)
      requires other.Valid()
      modifies other
      ensures Valid() && other.Valid()
      ensures rows == old(other.rows) && cols == old(other.cols) && data == old(other.data)
      ensures Contents == old(other.Contents)
      ensures other.rows == 0 && other.cols == 0 && other.Contents == [] && fresh(other.data)
    {
      rows, cols, data, Contents := other.rows, other.cols, other.data, other.Contents;
      new;
      other.rows, other.cols, other.Contents := 0, 0, [];
      other.data := new real[0, 0];
    }

    /** Copy assignment: a deep copy of `other`; assigning a matrix to itself changes nothing. */
    method Assign(other: Matrix)
      requires Valid() && other.Valid()
      modifies this
      ensures Valid()
      ensures rows == old(other.rows) && cols == old(other.cols) && Contents == old(other.Contents)
      ensures other != this ==> fresh(data)
      ensures other == this ==> data == old(data)
    {
      if this != other {
        rows, cols, Contents := other.rows, other.cols, other.Contents;
        data := new real[rows, cols]((_, _) => 0.0);
        CopyCells(data, other.data);
      }
    }

    /**
      Move assignment: takes over the buffer of `other` and leaves it 0 x 0;
      moving a matrix into itself changes nothing.
     */
    method MoveAssign(other: Matrix)
      requires Valid() && other.Valid()
      modifies this, other
      ensures Valid() && other.Valid()
      ensures rows == old(other.rows) && cols == old(other.cols) && data == old(other.data)
      ensures Contents == old(other.Contents)
      ensures other != this ==> other.rows == 0 && other.cols == 0 && other.Contents == [] && fresh(other.data)
    {
      if this != other {
        rows, cols, data, Contents := other.rows, other.cols, other.data, other.Contents;
        other.rows, other.cols, other.Contents := 0, 0, [];
        other.data := new real[0, 0];
      }
    }

    // -------------------------------------------------------------------
    // Element access

    /** Reads cell (row, col); an index outside the shape is an error. */
    method At(row: int, col: int) returns (res: Result<real>)
      requires Valid()
      ensures res.Failure? <==> !InRange(row, col, rows, cols)
      ensures res.Failure? ==> res.error == IndexOutOfRange
      ensures res.Success? ==> res.value == Contents[row][col]
    {
      if row < 0 || col < 0 || row >= rows || col >= cols {
        return Failure(IndexOutOfRange);
      }
      return Success(data[row, col]);
    }

    /** Writes cell (row, col) and no other; an index outside the shape is an error. */
    method Set(row: int, col: int, v: real) returns (res: Outcome)
      requires Valid()
      modifies this, data
      ensures Valid() && rows == old(rows) && cols == old(cols) && data == old(data)
      ensures res.Fail? <==> !InRange(row, col, rows, cols)
      ensures res.Fail? ==> res.error == IndexOutOfRange && unchanged(this) && unchanged(data)
      ensures res.Pass? ==> Contents == Update(old(Contents), row, col, v)
    {
      if row < 0 || col < 0 || row >= rows || col >= cols {
        return Fail(IndexOutOfRange);
      }
      data[row, col] := v;
      Contents := Update(Contents, row, col, v);
      return Pass;
    }

    // -------------------------------------------------------------------
    // Equality and cell-wise arithmetic

    /** Equal shapes, and every pair of cells within the tolerance. */
    method EqMatrix(other: Matrix) returns (eq: bool)
      requires Valid() && other.Valid()
      ensures eq <==> rows == other.rows && cols == other.cols && Close(Contents, other.Contents)
    {
      eq := true;
      if cols != other.cols || rows != other.rows {
        eq := false;
      }
      ghost var badRow, badCol := 0, 0;
      var row := 0;
      while row < rows && eq
        invariant 0 <= row <= rows
        invariant eq ==> rows == other.rows && cols == other.cols
        invariant eq ==> forall x, y :: 0 <= x < row && 0 <= y < cols ==> Near(data[x, y], other.data[x, y])
        invariant !eq && rows == other.rows && cols == other.cols ==>
          badRow < rows && badCol < cols && !Near(data[badRow, badCol], other.data[badRow, badCol])
      {
        var col := 0;
        while col < cols && eq
          invariant 0 <= col <= cols
          invariant eq ==> forall x, y :: 0 <= x < row && 0 <= y < cols ==> Near(data[x, y], other.data[x, y])
          invariant eq ==> forall y :: 0 <= y < col ==> Near(data[row, y], other.data[row, y])
          invariant !eq && rows == other.rows && cols == other.cols ==>
            badRow < rows && badCol < cols && !Near(data[badRow, badCol], other.data[badRow, badCol])
        {
          if Abs(data[row, col] - other.data[row, col]) > Tolerance {
            eq := false;
            badRow, badCol := row, col;
          }
          col := col + 1;
        }
        row := row + 1;
      }
    }

    /** Adds `other` cell by cell; a shape mismatch is an error and leaves this matrix as it was. */
    method SumMatrix(other: Matrix) returns (res: Outcome)
      requires Valid() && other.Valid()
      modifies this, data
      ensures Valid() && rows == old(rows) && cols == old(cols) && data == old(data)
      ensures res.Fail? <==> rows != old(other.rows) || cols != old(other.cols)
      ensures res.Fail? ==> res.error == DimensionMismatch && unchanged(this) && unchanged(data)
      ensures res.Pass? ==> Contents == Add(old(Contents), old(other.Contents))
    {
      if rows != other.rows || cols != other.cols {
        return Fail(DimensionMismatch);
      }
      ghost var a, b := Contents, other.Contents;
      var buf, oth, n, p := data, other.data, rows, cols;
      var row := 0;
      while row < n
        modifies buf
        invariant 0 <= row <= n
        invariant forall x, y :: 0 <= x < n && 0 <= y < p ==>
          buf[x, y] == if x < row then a[x][y] + b[x][y] else a[x][y]
        invariant oth != buf ==> unchanged(oth)
      {
        var col := 0;
        while col < p
          modifies buf
          invariant 0 <= col <= p
          invariant forall x, y :: 0 <= x < n && 0 <= y < p ==>
            buf[x, y] == if x < row || (x == row && y < col) then a[x][y] + b[x][y] else a[x][y]
          invariant oth != buf ==> unchanged(oth)
        {
          buf[row, col] := buf[row, col] + oth[row, col];
          col := col + 1;
        }
        row := row + 1;
      }
      Contents := Add(a, b);
      return Pass;
    }

    /** Subtracts `other` cell by cell; a shape mismatch is an error and leaves this matrix as it was. */
    method SubMatrix(other: Matrix) returns (res: Outcome)
      requires Valid() && other.Valid()
      modifies this, data
      ensures Valid() && rows == old(rows) && cols == old(cols) && data == old(data)
      ensures res.Fail? <==> rows != old(other.rows) || cols != old(other.cols)
      ensures res.Fail? ==> res.error == DimensionMismatch && unchanged(this) && unchanged(data)
      ensures res.Pass? ==> Contents == Sub(old(Contents), old(other.Contents))
    {
      if rows != other.rows || cols != other.cols {
        return Fail(DimensionMismatch);
      }
      ghost var a, b := Contents, other.Contents;
      var buf, oth, n, p := data, other.data, rows, cols;
      var row := 0;
      while row < n
        modifies buf
        invariant 0 <= row <= n
        invariant forall x, y :: 0 <= x < n && 0 <= y < p ==>
          buf[x, y] == if x < row then a[x][y] - b[x][y] else a[x][y]
        invariant oth != buf ==> unchanged(oth)
      {
        var col := 0;
        while col < p
          modifies buf
          invariant 0 <= col <= p
          invariant forall x, y :: 0 <= x < n && 0 <= y < p ==>
            buf[x, y] == if x < row || (x == row && y < col) then a[x][y] - b[x][y] else a[x][y]
          invariant oth != buf ==> unchanged(oth)
        {
          buf[row, col] := buf[row, col] - oth[row, col];
          col := col + 1;
        }
        row := row + 1;
      }
      Contents := Sub(a, b);
      return Pass;
    }

    /** Multiplies every cell by `x`. */
    method MulNumber(x: real)
      requires Valid()
      modifies this, data
      ensures Valid() && rows == old(rows) && cols == old(cols) && data == old(data)
      ensures Contents == Scale(old(Contents), x)
    {
      ghost var a := Contents;
      var buf, n, p := data, rows, cols;
      var row := 0;
      while row < n
        modifies buf
        invariant 0 <= row <= n
        invariant forall i, j :: 0 <= i < n && 0 <= j < p ==>
          buf[i, j] == if i < row then a[i][j] * x else a[i][j]
      {
        var col := 0;
        while col < p
          modifies buf
          invariant 0 <= col <= p
          invariant forall i, j :: 0 <= i < n && 0 <= j < p ==>
            buf[i, j] == if i < row || (i == row && j < col) then a[i][j] * x else a[i][j]
        {
          buf[row, col] := buf[row, col] * x;
          col := col + 1;
        }
        row := row + 1;
      }
      Contents := Scale(a, x);
    }

    // -------------------------------------------------------------------
    // Matrix product

    /** One cell of the product: the sum over `i` of src[row][i] * oth[i][col]. */
    static method RowTimesColumn(src: array2<real>, oth: array2<real>, ghost a: Grid, ghost b: Grid, row: nat, col: nat)
      returns (s: real)
      requires IsShape(a, src.Length0, src.Length1) && IsShape(b, oth.Length0, oth.Length1)
      requires src.Length1 == oth.Length0 && row < src.Length0 && col < oth.Length1
      requires forall x, y :: 0 <= x < src.Length0 && 0 <= y < src.Length1 ==> src[x, y] == a[x][y]
      requires forall x, y :: 0 <= x < oth.Length0 && 0 <= y < oth.Length1 ==> oth[x, y] == b[x][y]
      ensures s == Dot(a[row], Column(b, col))
    {
      ghost var u, v := a[row], Column(b, col);
      s := 0.0;
      var i := 0;
      while i < src.Length1
        invariant 0 <= i <= src.Length1
        invariant s == Dot(u[..i], v[..i])
      {
        assert u[..i + 1][..i] == u[..i] && v[..i + 1][..i] == v[..i];
        s := s + src[row, i] * oth[i, col];
        i := i + 1;
      }
      assert u[..src.Length1] == u && v[..src.Length1] == v;
    }

    /**
      Replaces this matrix by its product with `other`, computed into a fresh
      buffer; a column count that differs from the row count of `other` is an
      error and leaves this matrix as it was.
     */
    method MulMatrix(other: Matrix) returns (res: Outcome)
      requires Valid() && other.Valid()
      modifies this
      ensures Valid()
      ensures res.Fail? <==> old(cols) != old(other.rows)
      ensures res.Fail? ==> res.error == DimensionMismatch && unchanged(this)
      ensures res.Pass? ==> rows == old(rows) && cols == old(other.cols) && fresh(data)
      ensures res.Pass? ==> Contents == Mul(old(Contents), old(other.Contents), old(other.cols))
    {
      if cols != other.rows {
        return Fail(DimensionMismatch);
      }
      var n, p := rows, other.cols;
      ghost var a, b := Contents, other.Contents;
      ghost var prod := Mul(a, b, p);
      var result := new real[n, p]((_, _) => 0.0);
      var row := 0;
      while row < n
        modifies result
        invariant 0 <= row <= n
        invariant forall x, y :: 0 <= x < row && 0 <= y < p ==> result[x, y] == prod[x][y]
      {
        var col := 0;
        while col < p
          modifies result
          invariant 0 <= col <= p
          invariant forall x, y :: 0 <= x < row && 0 <= y < p ==> result[x, y] == prod[x][y]
          invariant forall y :: 0 <= y < col ==> result[row, y] == prod[row][y]
        {
          result[row, col] := RowTimesColumn(data, other.data, a, b, row, col);
          col := col + 1;
        }
        row := row + 1;
      }
      cols, data, Contents := p, result, prod;
      return Pass;
    }

    // -------------------------------------------------------------------
    // Transpose, minors, determinant, complements, inverse

    /** A new `cols x rows` matrix holding cell (i, j) of this one at (j, i). */
    method Transpose() returns (t: Matrix)
      requires Valid()
      ensures fresh(t) && fresh(t.data) && t.Valid()
      ensures t.rows == cols && t.cols == rows && t.Contents == Transposed(Contents, cols)
    {
      var src, n, p := data, rows, cols;
      t := new Matrix.Sized(p, n);
      var buf := t.data;
      var row := 0;
      while row < n
        modifies buf
        invariant 0 <= row <= n
        invariant forall i, j :: 0 <= i < p && 0 <= j < row ==> buf[i, j] == src[j, i]
      {
        var col := 0;
        while col < p
          modifies buf
          invariant 0 <= col <= p
          invariant forall i, j :: 0 <= i < p && 0 <= j < row ==> buf[i, j] == src[j, i]
          invariant forall i :: 0 <= i < col ==> buf[i, row] == src[row, i]
        {
          buf[col, row] := src[row, col];
          col := col + 1;
        }
        row := row + 1;
      }
      t.Contents := Transposed(Contents, p);
    }

    /**
      A new matrix without row `r` and column `c`.  Cells are written in
      row-major order, moving to the next row of the minor after rows - 1
      cells, which is its width because the matrix is square.
     */
    method GetMinor(r: nat, c: nat) returns (minor: Matrix)
      requires Valid() && rows == cols && r < rows && c < cols
      ensures fresh(minor) && fresh(minor.data) && minor.Valid()
      ensures minor.rows == rows - 1 && minor.cols == cols - 1
      ensures minor.Contents == Minor(Contents, r, c)
    {
      var n, src := rows, data;
      minor := new Matrix.Sized(n - 1, n - 1);
      var buf := minor.data;
      var i, j := 0, 0;
      var row := 0;
      while row < n
        modifies buf
        invariant 0 <= row <= n
        invariant i == row - (if row > r then 1 else 0) && j == 0
        invariant forall x, y :: 0 <= x < i && 0 <= y < n - 1 ==> buf[x, y] == src[Skip(x, r), Skip(y, c)]
      {
        i, j := CopyMinorRow(src, buf, row, r, c, i, j);
        row := row + 1;
      }
      minor.Contents := Minor(Contents, r, c);
    }

    /**
      The inner loop of GetMinor for source row `row`: unless it is row `r`,
      its cells outside column `c` go to row `i` of the minor, one after the
      other from column `j`, and the cursor then moves to the next row.
     */
    static method CopyMinorRow(src: array2<real>, buf: array2<real>, row: nat, r: nat, c: nat, i: nat, j: nat)
      returns (i': nat, j': nat)
      requires src.Length0 == src.Length1 && buf.Length0 == buf.Length1 == src.Length0 - 1 && buf != src
      requires row < src.Length0 && c < src.Length0 && j == 0 && (row != r ==> i < buf.Length0)
      modifies buf
      ensures j' == 0 && i' == if row == r then i else i + 1
      ensures row != r ==> forall y :: 0 <= y < buf.Length1 ==> buf[i, y] == src[row, Skip(y, c)]
      ensures forall x, y :: 0 <= x < buf.Length0 && 0 <= y < buf.Length1 && (row == r || x != i) ==>
        buf[x, y] == old(buf[x, y])
    {
      var n := src.Length0;
      i', j' := i, j;
      var col := 0;
      while col < n
        invariant 0 <= col <= n
        invariant row == r ==> i' == i && j' == 0
        invariant row != r ==>
          var done := col - (if col > c then 1 else 0);
          if done == n - 1 then i' == i + 1 && j' == 0 else i' == i && j' == done
        invariant row != r ==>
          forall y :: 0 <= y < col - (if col > c then 1 else 0) ==> buf[i, y] == src[row, Skip(y, c)]
        invariant forall x, y :: 0 <= x < buf.Length0 && 0 <= y < buf.Length1 && (row == r || x != i) ==>
          buf[x, y] == old(buf[x, y])
      {
        if row != r && col != c {
          buf[i', j'] := src[row, col];
          j' := j' + 1;
          if j' == n - 1 {
            j' := 0;
            i' := i' + 1;
          }
        }
        col := col + 1;
      }
    }

    /** The determinant; a non-square matrix is an error. */
    method Determinant() returns (res: Result<real>)
      requires Valid()
      ensures res.Failure? <==> rows != cols
      ensures res.Failure? ==> res.error == NotSquare
      ensures res.Success? ==> res.value == Det(Contents)
      decreases rows, 2
    {
      if rows != cols {
        return Failure(NotSquare);
      }
      var d := DeterminantHelper();
      return Success(d);
    }

    /**
      The determinant of a square matrix: 1, the entry, or ad - cb up to
      2 x 2; above that the expansion along row 0, one minor per column.
     */
    method DeterminantHelper() returns (d: real)
      requires Valid() && rows == cols
      ensures d == Det(Contents)
      decreases rows, 1
    {
      if rows == 0 {
        return 1.0;
      }
      if rows == 1 {
        return data[0, 0];
      }
      if rows == 2 {
        return data[0, 0] * data[1, 1] - data[1, 0] * data[0, 1];
      }
      ghost var m := Contents;
      var result := 0.0;
      var col := 0;
      while col < cols
        invariant 0 <= col <= cols
        invariant result == Expansion(m, col)
      {
        var minorDet := MinorDeterminant(0, col);
        var term := Sign(col) * data[0, col] * minorDet;
        ExpansionStep(m, col, data[0, col], minorDet, term);
        result := result + term;
        col := col + 1;
      }
      ExpansionIsDet(m);
      return result;
    }

    /** The determinant of the minor without row `row` and column `col`. */
    method MinorDeterminant(row: nat, col: nat) returns (d: real)
      requires Valid() && rows == cols && row < rows && col < cols
      ensures d == Det(Minor(Contents, row, col))
      decreases rows, 0
    {
      var minor := GetMinor(row, col);
      var det := minor.Determinant();
      d := det.value;
    }

    /** One cell of the cofactor matrix: the determinant of minor (row, col), signed by row + col. */
    method Complement(row: nat, col: nat) returns (v: real)
      requires Valid() && rows == cols && row < rows && col < cols
      ensures v == Cofactors(Contents)[row][col]
    {
      var d := MinorDeterminant(row, col);
      CofactorEntry(Contents, row, col, d);
      v := d * Sign(row + col);
    }

    /**
      A new matrix of cofactors: entry (i, j) is the determinant of minor
      (i, j) with the sign of i + j.  Anything but a square matrix of size
      at least 2 is an error.
     */
    method CalcComplements() returns (res: Result<Matrix>)
      requires Valid()
      ensures res.Failure? <==> rows != cols || rows <= 1
      ensures res.Failure? ==> res.error == NotSquare
      ensures res.Success? ==>
        var k := res.value;
        fresh(k) && fresh(k.data) && k.Valid() && k.rows == rows && k.cols == cols && k.Contents == Cofactors(Contents)
    {
      if rows != cols || rows <= 1 {
        return Failure(NotSquare);
      }
      ghost var cof := Cofactors(Contents);
      var n := rows;
      var result := new Matrix.Sized(n, n);
      var buf := result.data;
      var row := 0;
      while row < n
        modifies buf
        invariant 0 <= row <= n
        invariant forall x, y :: 0 <= x < row && 0 <= y < n ==> buf[x, y] == cof[x][y]
      {
        var col := 0;
        while col < n
          modifies buf
          invariant 0 <= col <= n
          invariant forall x, y :: 0 <= x < row && 0 <= y < n ==> buf[x, y] == cof[x][y]
          invariant forall y :: 0 <= y < col ==> buf[row, y] == cof[row][y]
        {
          buf[row, col] := Complement(row, col);
          col := col + 1;
        }
        row := row + 1;
      }
      result.Contents := cof;
      return Success(result);
    }

    /**
      A new matrix holding the inverse: the determinant is computed first (a
      non-square matrix is an error), a zero determinant is an error, a 1 x 1
      matrix gives the reciprocal of its entry, and any other matrix the
      transposed cofactor matrix scaled by 1 / determinant.
     */
    method InverseMatrix() returns (res: Result<Matrix>)
      requires Valid()
      ensures rows != cols ==> res == Failure(NotSquare)
      ensures rows == cols ==> res.Success? == Inverse(Contents).Success?
      ensures rows == cols && res.Failure? ==> res.error == Inverse(Contents).error
      ensures res.Success? ==>
        var inv := res.value;
        fresh(inv) && fresh(inv.data) && inv.Valid() && inv.rows == rows && inv.cols == cols && inv.Contents == Inverse(Contents).value
    {
      var d := Determinant();
      if d.Failure? {
        return Failure(d.error);
      }
      var det := d.value;
      if det == 0.0 {
        return Failure(SingularMatrix);
      }
      if rows == 1 {
        var result := new Matrix.Sized(1, 1);
        result.data[0, 0] := 1.0 / data[0, 0];
        result.Contents := [[1.0 / data[0, 0]]];
        return Success(result);
      }
      var k := CalcComplements();
      if k.Failure? {
        return Failure(k.error);
      }
      var result := k.value.Transpose();
      result.MulNumber(1.0 / det);
      return Success(result);
    }

    // -------------------------------------------------------------------
    // Resizing

    /**
      Gives the matrix the shape `r x c`, keeping the cells of the top-left
      block both shapes share and zeroing the rest; a non-positive dimension
      is an error and leaves the matrix as it was.
     */
    method SetSize(r: int, c: int) returns (res: Outcome)
      requires Valid()
      modifies this
      ensures Valid()
      ensures res.Fail? <==> r <= 0 || c <= 0
      ensures res.Fail? ==> res.error == InvalidDimension && unchanged(this)
      ensures res.Pass? ==> rows == r && cols == c && fresh(data)
      ensures res.Pass? ==> Contents == Resized(old(Contents), old(cols), r, c)
    {
      if r <= 0 || c <= 0 {
        return Fail(InvalidDimension);
      }
      ghost var a := Contents;
      var temp, oldRows, oldCols := data, rows, cols;
      var buf := new real[r, c]((_, _) => 0.0);
      var keepRows := if r < oldRows then r else oldRows;
      var keepCols := if c < oldCols then c else oldCols;
      var i := 0;
      while i < keepRows
        modifies buf
        invariant 0 <= i <= keepRows
        invariant forall x, y :: 0 <= x < r && 0 <= y < c ==>
          buf[x, y] == if x < i && y < keepCols then a[x][y] else 0.0
      {
        var j := 0;
        while j < keepCols
          modifies buf
          invariant 0 <= j <= keepCols
          invariant forall x, y :: 0 <= x < r && 0 <= y < c ==>
            buf[x, y] == if (x < i && y < keepCols) || (x == i && y < j) then a[x][y] else 0.0
        {
          buf[i, j] := temp[i, j];
          j := j + 1;
        }
        i := i + 1;
      }
      rows, cols, data, Contents := r, c, buf, Resized(a, oldCols, r, c);
      return Pass;
    }

    /** SetSize with the column count kept: fails on a matrix without columns. */
    method SetRows(r: int) returns (res: Outcome)
      requires Valid()
      modifies this
      ensures Valid()
      ensures res.Fail? <==> r <= 0 || old(cols) == 0
      ensures res.Fail? ==> res.error == InvalidDimension && unchanged(this)
      ensures res.Pass? ==> rows == r && cols == old(cols) && fresh(data)
      ensures res.Pass? ==> Contents == Resized(old(Contents), old(cols), r, old(cols))
    {
      res := SetSize(r, cols);
    }

    /** SetSize with the row count kept: fails on a matrix without rows. */
    method SetCols(c: int) returns (res: Outcome)
      requires Valid()
      modifies this
      ensures Valid()
      ensures res.Fail? <==> c <= 0 || old(rows) == 0
      ensures res.Fail? ==> res.error == InvalidDimension && unchanged(this)
      ensures res.Pass? ==> rows == old(rows) && cols == c && fresh(data)
      ensures res.Pass? ==> Contents == Resized(old(Contents), old(cols), old(rows), c)
    {
      res := SetSize(rows, c);
    }

    // -------------------------------------------------------------------
    // Operators

    /** `this + other`: a new matrix; this matrix is left as it was. */
    method Plus(other: Matrix) returns (res: Result<Matrix>)
      requires Valid() && other.Valid()
      ensures res.Failure? <==> rows != other.rows || cols != other.cols
      ensures res.Failure? ==> res.error == DimensionMismatch
      ensures res.Success? ==>
        var s := res.value;
        fresh(s) && fresh(s.data) && s.Valid() && s.rows == rows && s.cols == cols && s.Contents == Add(Contents, other.Contents)
    {
      var result := new Matrix.Copy(this);
      var o := result.SumMatrix(other);
      if o.Fail? {
        return Failure(o.error);
      }
      return Success(result);
    }

    /** `this - other`: a new matrix; this matrix is left as it was. */
    method Minus(other: Matrix) returns (res: Result<Matrix>)
      requires Valid() && other.Valid()
      ensures res.Failure? <==> rows != other.rows || cols != other.cols
      ensures res.Failure? ==> res.error == DimensionMismatch
      ensures res.Success? ==>
        var d := res.value;
        fresh(d) && fresh(d.data) && d.Valid() && d.rows == rows && d.cols == cols && d.Contents == Sub(Contents, other.Contents)
    {
      var result := new Matrix.Copy(this);
      var o := result.SubMatrix(other);
      if o.Fail? {
        return Failure(o.error);
      }
      return Success(result);
    }

    /** `this * other`: a new matrix; this matrix is left as it was. */
    method Times(other: Matrix) returns (res: Result<Matrix>)
      requires Valid() && other.Valid()
      ensures res.Failure? <==> cols != other.rows
      ensures res.Failure? ==> res.error == DimensionMismatch
      ensures res.Success? ==>
        var m := res.value;
        fresh(m) && fresh(m.data) && m.Valid() && m.rows == rows && m.cols == other.cols && m.Contents == Mul(Contents, other.Contents, other.cols)
    {
      var result := new Matrix.Copy(this);
      var o := result.MulMatrix(other);
      if o.Fail? {
        return Failure(o.error);
      }
      return Success(result);
    }

    /** `this * x`: a new matrix; this matrix is left as it was. */
    method TimesNumber(x: real) returns (m: Matrix)
      requires Valid()
      ensures fresh(m) && fresh(m.data) && m.Valid() && m.rows == rows && m.cols == cols && m.Contents == Scale(Contents, x)
    {
      m := new Matrix.Copy(this);
      m.MulNumber(x);
    }

    /** `this == other`. */
    method Equals(other: Matrix) returns (eq: bool)
      requires Valid() && other.Valid()
      ensures eq <==> rows == other.rows && cols == other.cols && Close(Contents, other.Contents)
    {
      eq := EqMatrix(other);
    }

    /** `this != other`. */
    method NotEquals(other: Matrix) returns (ne: bool)
      requires Valid() && other.Valid()
      ensures ne <==> !(rows == other.rows && cols == other.cols && Close(Contents, other.Contents))
    {
      var eq := EqMatrix(other);
      ne := !eq;
    }

    /** `this += other`. */
    method AddAssign(other: Matrix) returns (res: Outcome)
      requires Valid() && other.Valid()
      modifies this, data
      ensures Valid() && rows == old(rows) && cols == old(cols) && data == old(data)
      ensures res.Fail? <==> rows != old(other.rows) || cols != old(other.cols)
      ensures res.Fail? ==> res.error == DimensionMismatch && unchanged(this) && unchanged(data)
      ensures res.Pass? ==> Contents == Add(old(Contents), old(other.Contents))
    {
      res := SumMatrix(other);
    }

    /** `this -= other`. */
    method SubAssign(other: Matrix) returns (res: Outcome)
      requires Valid() && other.Valid()
      modifies this, data
      ensures Valid() && rows == old(rows) && cols == old(cols) && data == old(data)
      ensures res.Fail? <==> rows != old(other.rows) || cols != old(other.cols)
      ensures res.Fail? ==> res.error == DimensionMismatch && unchanged(this) && unchanged(data)
      ensures res.Pass? ==> Contents == Sub(old(Contents), old(other.Contents))
    {
      res := SubMatrix(other);
    }

    /** `this *= other`. */
    method MulAssign(other: Matrix) returns (res: Outcome)
      requires Valid() && other.Valid()
      modifies this
      ensures Valid()
      ensures res.Fail? <==> old(cols) != old(other.rows)
      ensures res.Fail? ==> res.error == DimensionMismatch && unchanged(this)
      ensures res.Pass? ==> rows == old(rows) && cols == old(other.cols) && fresh(data)
      ensures res.Pass? ==> Contents == Mul(old(Contents), old(other.Contents), old(other.cols))
    {
      res := MulMatrix(other);
    }

    /** `this *= x`. */
    method MulAssignNumber(x: real)
      requires Valid()
      modifies this, data
      ensures Valid() && rows == old(rows) && cols == old(cols) && data == old(data)
      ensures Contents == Scale(old(Contents), x)
    {
      MulNumber(x);
    }
  }
}
