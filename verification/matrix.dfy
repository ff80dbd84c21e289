/** The dense matrix of mat.go (`Matrix64`, a slice of rows) and its shape,
copy, swap, transpose and equality operations.

None of these operations does arithmetic on the entries, so the entry type is
generic. A matrix is a sequence of rows of one common length. The in-place Go
methods (`CopyTo`, `CopyFrom`, `SwapRows`, `SwapCols`) are modelled as
functions returning the updated matrix; a panic returns no matrix. Two
matrix arguments are independent values: rows shared between them are not
modelled. Where Go allocates a fresh matrix (`NewMatrix64`, `Clone`,
`Transpose`) the zero value of the entry type is passed in as `zero`.
 */
module Mat {
  import opened Outcomes

  /** Every row has the length of the first one. */
  predicate IsRectangular<T>(m: seq<seq<T>>)
  {
    forall i :: 0 <= i < |m| ==> |m[i]| == |m[0]|
  }

  type Matrix<T> = m: seq<seq<T>> | IsRectangular(m) witness []

  /** `Rows`: the number of rows. */
  function Rows<T>(a: Matrix<T>): (r: nat)
    ensures r == 0 <==> a == []
  {
    |a|
  }

  /** `Cols`: the length of row 0, and 0 for a matrix without rows. */
  function Cols<T>(a: Matrix<T>): (r: nat)
    ensures |a| == 0 ==> r == 0
    ensures forall i :: 0 <= i < |a| ==> |a[i]| == r
  {
    if |a| == 0 then 0 else |a[0]|
  }

  /** Two matrices with the same number of rows and of columns. */
  predicate SameShape<T, U>(a: Matrix<T>, b: Matrix<U>)
  {
    |a| == |b| && Cols(a) == Cols(b)
  }

  /** `Dims`: (rows, columns). It reads row 0, so it panics on a matrix
      without rows. */
  function Dims<T>(a: Matrix<T>): (r: Result<(nat, nat)>)
    ensures r.Panic? <==> |a| == 0
    ensures r.Panic? ==> r.fault == IndexOutOfRange
    ensures r.Ok? ==> r.value.0 == Rows(a) && r.value.1 == Cols(a)
    ensures r.Ok? ==> forall i :: 0 <= i < |a| ==> |a[i]| == r.value.1
  {
    if |a| == 0 then Panic(IndexOutOfRange) else Ok((|a|, |a[0]|))
  }

  /** `NewMatrix64(nRow, nCol)`: a zero-filled nRow x nCol matrix. The backing
      buffer `make([]float64, nCol*nRow)` panics when the product is negative,
      and the row slice `make(Matrix64, nRow)` when nRow is; with nRow == 0 and
      nCol < 0 neither happens and the result is the empty matrix. */
  function New<T>(zero: T, nRow: int, nCol: int): (r: Result<Matrix<T>>)
    ensures r.Ok? <==> nRow >= 0 && (nRow == 0 || nCol >= 0)
    ensures r.Panic? ==> r.fault == NegativeLength
    ensures r.Ok? ==> |r.value| == nRow
    ensures r.Ok? ==> forall i :: 0 <= i < nRow ==> |r.value[i]| == nCol
    ensures r.Ok? ==> forall i, j :: 0 <= i < nRow && 0 <= j < |r.value[i]| ==> r.value[i][j] == zero
  {
    if nCol * nRow < 0 || nRow < 0 then Panic(NegativeLength)
    else if nRow == 0 then Ok([])
    else Ok(seq(nRow, _ => seq(nCol, _ => zero)))
  }

  /** The loops of `CopyTo` touch `target[i][j]` for every (i, j) inside `a`'s
      shape: they stay in range exactly when `target` is at least as large, or
      when `a` has no entries at all. */
  predicate Covers<T, U>(target: Matrix<T>, a: Matrix<U>)
  {
    Cols(a) == 0 || (|a| <= |target| && Cols(a) <= Cols(target))
  }

  /** `a.CopyTo(target)`: copies every entry of `a` into the same position of
      `target`. */
  function CopyTo<T>(a: Matrix<T>, target: Matrix<T>): (r: Result<Matrix<T>>)
    ensures r.Ok? <==> Covers(target, a)
    ensures r.Panic? ==> r.fault == IndexOutOfRange
    ensures r.Ok? ==> SameShape(r.value, target)
    ensures r.Ok? ==> forall i, j :: 0 <= i < |a| && 0 <= j < Cols(a) ==> r.value[i][j] == a[i][j]
    ensures r.Ok? ==> forall i, j :: 0 <= i < |target| && 0 <= j < Cols(target) && !(i < |a| && j < Cols(a)) ==>
      r.value[i][j] == target[i][j]
  {
    if !Covers(target, a) then Panic(IndexOutOfRange)
    else
      var m := seq(|target|, i requires 0 <= i < |target| =>
        seq(|target[i]|, j requires 0 <= j < |target[i]| =>
          if i < |a| && j < |a[i]| then a[i][j] else target[i][j]));
      assert IsRectangular(m) by {
        forall i | 0 <= i < |m| ensures |m[i]| == |m[0]| {
          assert |m[i]| == |target[i]| == |target[0]|;
        }
      }
      Ok(m)
  }

  /** `a.CopyFrom(src)`: overwrites every entry of `a` with the entry of `src`
      at the same position; `src` is left as it was. */
  function CopyFrom<T>(a: Matrix<T>, src: Matrix<T>): (r: Result<Matrix<T>>)
    ensures r.Ok? <==> Covers(src, a)
    ensures r.Panic? ==> r.fault == IndexOutOfRange
    ensures r.Ok? ==> SameShape(r.value, a)
    ensures r.Ok? ==> forall i, j :: 0 <= i < |a| && 0 <= j < Cols(a) ==> r.value[i][j] == src[i][j]
  {
    if !Covers(src, a) then Panic(IndexOutOfRange)
    else
      var m := seq(|a|, i requires 0 <= i < |a| =>
        seq(|a[i]|, j requires 0 <= j < |a[i]| => src[i][j]));
      assert IsRectangular(m) by {
        forall i | 0 <= i < |m| ensures |m[i]| == |m[0]| {
          assert |m[i]| == |a[i]| == |a[0]|;
        }
      }
      Ok(m)
  }

  /** Two matrices of one shape that agree at every position are equal. */
  lemma PointwiseEqual<T>(a: Matrix<T>, b: Matrix<T>)
    requires SameShape(a, b)
    requires forall i, j :: 0 <= i < |a| && 0 <= j < Cols(a) ==> a[i][j] == b[i][j]
    ensures a == b
  {
    forall i | 0 <= i < |a|
      ensures a[i] == b[i]
    {
      assert |a[i]| == Cols(a) == |b[i]|;
    }
  }

  /** Copying between two matrices of one shape: `b.CopyTo(a)` and
      `a.CopyFrom(b)` both turn `a` into `b`. */
  lemma CopyBetweenSameShape<T>(a: Matrix<T>, b: Matrix<T>)
    requires SameShape(a, b)
    ensures CopyTo(b, a) == Ok(b)
    ensures CopyFrom(a, b) == Ok(b)
  {
    PointwiseEqual(CopyTo(b, a).value, b);
    PointwiseEqual(CopyFrom(a, b).value, b);
  }

  /** Copying the same source a second time changes nothing more. */
  lemma CopyToIdempotent<T>(a: Matrix<T>, target: Matrix<T>)
    requires Covers(target, a)
    ensures CopyTo(a, CopyTo(a, target).value) == CopyTo(a, target)
  {
    var once := CopyTo(a, target).value;
    PointwiseEqual(CopyTo(a, once).value, once);
  }

  /** `Clone`: a fresh matrix of `a`'s dimensions (`NewMatrix64(a.Dims())`)
      into which every entry of `a` is copied. `Dims` panics on a matrix
      without rows. */
  function Clone<T>(zero: T, a: Matrix<T>): (r: Result<Matrix<T>>)
    ensures r.Panic? <==> |a| == 0
    ensures r.Panic? ==> r.fault == IndexOutOfRange
    ensures r.Ok? ==> r.value == a
  {
    var d :- Dims(a);
    var blank := New(zero, d.0, d.1);
    var c := CopyTo(a, blank.value);
    PointwiseEqual(c.value, a);
    c
  }

  /** `SwapRows(i, j)`: exchanges rows i and j entry by entry over `Cols()`
      columns. With no columns the loop does not run, so no index is checked. */
  function SwapRows<T>(a: Matrix<T>, i: int, j: int): (r: Result<Matrix<T>>)
    ensures r.Ok? <==> Cols(a) == 0 || (0 <= i < |a| && 0 <= j < |a|)
    ensures r.Panic? ==> r.fault == IndexOutOfRange
    ensures r.Ok? ==> SameShape(r.value, a)
    ensures r.Ok? && Cols(a) > 0 ==> r.value[i] == a[j] && r.value[j] == a[i]
    ensures r.Ok? ==> forall k :: 0 <= k < |a| && k != i && k != j ==> r.value[k] == a[k]
  {
    if Cols(a) == 0 then Ok(a)
    else if !(0 <= i < |a| && 0 <= j < |a|) then Panic(IndexOutOfRange)
    else Ok(a[i := a[j]][j := a[i]])
  }

  /** Swapping the same two rows twice restores the matrix. */
  lemma SwapRowsInvolution<T>(a: Matrix<T>, i: int, j: int)
    requires SwapRows(a, i, j).Ok?
    ensures SwapRows(SwapRows(a, i, j).value, i, j) == Ok(a)
  {
    var once := SwapRows(a, i, j).value;
    var twice := SwapRows(once, i, j).value;
    if Cols(a) > 0 {
      forall k | 0 <= k < |a|
        ensures twice[k] == a[k]
      {
        if k == i || k == j {
          assert twice[i] == once[j] == a[i];
          assert twice[j] == once[i] == a[j];
        }
      }
      assert twice == a;
    }
  }

  /** Swapping a row with itself changes nothing. */
  lemma SwapRowsSame<T>(a: Matrix<T>, i: int)
    requires SwapRows(a, i, i).Ok?
    ensures SwapRows(a, i, i) == Ok(a)
  {
    if Cols(a) > 0 {
      var once := SwapRows(a, i, i).value;
      forall k | 0 <= k < |a|
        ensures once[k] == a[k]
      {
      }
      assert once == a;
    }
  }

  /** `SwapCols(i, j)`: exchanges columns i and j in every row. With no rows
      the loop does not run, so no index is checked. */
  function SwapCols<T>(a: Matrix<T>, i: int, j: int): (r: Result<Matrix<T>>)
    ensures r.Ok? <==> |a| == 0 || (0 <= i < Cols(a) && 0 <= j < Cols(a))
    ensures r.Panic? ==> r.fault == IndexOutOfRange
    ensures r.Ok? ==> SameShape(r.value, a)
    ensures r.Ok? && |a| > 0 ==> forall k :: 0 <= k < |a| ==> r.value[k][i] == a[k][j] && r.value[k][j] == a[k][i]
    ensures r.Ok? ==> forall k, l :: 0 <= k < |a| && 0 <= l < Cols(a) && l != i && l != j ==> r.value[k][l] == a[k][l]
  {
    if |a| == 0 then Ok(a)
    else if !(0 <= i < Cols(a) && 0 <= j < Cols(a)) then Panic(IndexOutOfRange)
    else
      var m := seq(|a|, k requires 0 <= k < |a| => a[k][i := a[k][j]][j := a[k][i]]);
      assert IsRectangular(m) by {
        forall k | 0 <= k < |m| ensures |m[k]| == |m[0]| {
          assert |m[k]| == |a[k]| == |a[0]|;
        }
      }
      Ok(m)
  }

  /** Swapping the same two columns twice restores the matrix. */
  lemma SwapColsInvolution<T>(a: Matrix<T>, i: int, j: int)
    requires SwapCols(a, i, j).Ok?
    ensures SwapCols(SwapCols(a, i, j).value, i, j) == Ok(a)
  {
    var once := SwapCols(a, i, j).value;
    var twice := SwapCols(once, i, j).value;
    if |a| > 0 {
      forall k, l | 0 <= k < |a| && 0 <= l < Cols(a)
        ensures twice[k][l] == a[k][l]
      {
        if l == i || l == j {
          assert twice[k][i] == once[k][j] == a[k][i];
          assert twice[k][j] == once[k][i] == a[k][j];
        }
      }
      PointwiseEqual(twice, a);
    }
  }

  /** Swapping a column with itself changes nothing. */
  lemma SwapColsSame<T>(a: Matrix<T>, i: int)
    requires SwapCols(a, i, i).Ok?
    ensures SwapCols(a, i, i) == Ok(a)
  {
    if |a| > 0 {
      PointwiseEqual(SwapCols(a, i, i).value, a);
    }
  }

  /** `Transpose`: a fresh Cols x Rows matrix with `c[i][j] == a[j][i]`. `Dims`
      panics on a matrix without rows; a matrix with rows but no columns
      transposes to the matrix without rows. */
  function Transpose<T>(zero: T, a: Matrix<T>): (r: Result<Matrix<T>>)
    ensures r.Panic? <==> |a| == 0
    ensures r.Panic? ==> r.fault == IndexOutOfRange
    ensures r.Ok? ==> |r.value| == Cols(a)
    ensures r.Ok? ==> forall i :: 0 <= i < |r.value| ==> |r.value[i]| == |a|
    ensures r.Ok? ==> forall i, j :: 0 <= i < Cols(a) && 0 <= j < |a| ==> r.value[i][j] == a[j][i]
  {
    var d :- Dims(a);
    var c := New(zero, d.1, d.0).value;
    var m := seq(|c|, i requires 0 <= i < |c| =>
      seq(|c[i]|, j requires 0 <= j < |c[i]| => a[j][i]));
    assert IsRectangular(m) by {
      forall i | 0 <= i < |m| ensures |m[i]| == |m[0]| {
        assert |m[i]| == |c[i]| == |a|;
      }
    }
    Ok(m)
  }

  /** Transposing twice gives the matrix back when it has rows and columns. */
  lemma TransposeTwice<T>(zero: T, a: Matrix<T>)
    requires |a| > 0 && Cols(a) > 0
    ensures Transpose(zero, a).Ok?
    ensures Transpose(zero, Transpose(zero, a).value) == Ok(a)
  {
    var t := Transpose(zero, a).value;
    var tt := Transpose(zero, t).value;
    PointwiseEqual(tt, a);
  }

  /** With rows but no columns the first transpose has no rows, so the second
      one panics in `Dims`. */
  lemma TransposeTwiceNoColumns<T>(zero: T, a: Matrix<T>)
    requires |a| > 0 && Cols(a) == 0
    ensures Transpose(zero, a) == Ok([])
    ensures Transpose(zero, Transpose(zero, a).value) == Panic(IndexOutOfRange)
  {
  }

  /** `a.Equals(b)`: both `Dims` calls read row 0, so either matrix without
      rows panics; differing dimensions give false; otherwise true exactly when
      every pair of entries is equal. */
  function Equals<T(==)>(a: Matrix<T>, b: Matrix<T>): (r: Result<bool>)
    ensures r.Panic? <==> |a| == 0 || |b| == 0
    ensures r.Panic? ==> r.fault == IndexOutOfRange
    ensures r.Ok? && !SameShape(a, b) ==> !r.value
    ensures r.Ok? ==> (r.value <==> a == b)
  {
    var da :- Dims(a);
    var db :- Dims(b);
    if da.0 != db.0 || da.1 != db.1 then Ok(false)
    else
      var same := forall i, j :: 0 <= i < da.0 && 0 <= j < da.1 ==> b[i][j] == a[i][j];
      if same then PointwiseEqual(a, b); Ok(true) else Ok(false)
  }

  /** Equality comparison is symmetric. */
  lemma EqualsSymmetric<T>(a: Matrix<T>, b: Matrix<T>)
    ensures Equals(a, b) == Equals(b, a)
  {
  }

  /** A clone compares equal to its original. */
  lemma CloneEquals<T>(zero: T, a: Matrix<T>)
    requires |a| > 0
    ensures Clone(zero, a).Ok?
    ensures Equals(Clone(zero, a).value, a) == Ok(true)
  {
  }

  /** A matrix with rows and columns compares equal to its double transpose. */
  lemma TransposeTwiceEquals<T>(zero: T, a: Matrix<T>)
    requires |a| > 0 && Cols(a) > 0
    ensures Transpose(zero, a).Ok? && Transpose(zero, Transpose(zero, a).value).Ok?
    ensures Equals(Transpose(zero, Transpose(zero, a).value).value, a) == Ok(true)
  {
    TransposeTwice(zero, a);
  }

  /** Swapping columns is swapping rows of the transpose, transposed back. */
  lemma SwapColsViaTranspose<T>(zero: T, a: Matrix<T>, i: int, j: int)
    requires |a| > 0 && 0 <= i < Cols(a) && 0 <= j < Cols(a)
    ensures Transpose(zero, a).Ok?
    ensures SwapRows(Transpose(zero, a).value, i, j).Ok?
    ensures SwapRows(Transpose(zero, a).value, i, j).value != []
    ensures Transpose(zero, SwapRows(Transpose(zero, a).value, i, j).value) == SwapCols(a, i, j)
  {
    var t := Transpose(zero, a).value;
    var s := SwapRows(t, i, j).value;
    var back := Transpose(zero, s).value;
    var expected := SwapCols(a, i, j).value;
    forall k, l | 0 <= k < |a| && 0 <= l < Cols(a)
      ensures back[k][l] == expected[k][l]
    {
      assert back[k][l] == s[l][k];
    }
    PointwiseEqual(back, expected);
  }
}
