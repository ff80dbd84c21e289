/** The centred log-ratio transform `Clr` of comp.go.

Each row of the input is a composition (its parts); its image is
clr(x) = ln x - mean(ln x), entry by entry. The entries are exact reals and the
natural logarithm is a parameter `ln`, so nothing here depends on its values
except where a lemma says so.
 */
module Comp {
  import opened Outcomes
  import opened Mat

  /** The sum of a row, added left to right as the accumulation loop does. */
  function Sum(s: seq<real>): real
  {
    if |s| == 0 then 0.0 else Sum(s[..|s| - 1]) + s[|s| - 1]
  }

  /** The logarithms of a row's parts. */
  function Logs(ln: real -> real, row: seq<real>): (r: seq<real>)
    ensures |r| == |row|
    ensures forall j :: 0 <= j < |row| ==> r[j] == ln(row[j])
  {
    seq(|row|, j requires 0 <= j < |row| => ln(row[j]))
  }

  /** The mean of the logarithms of a row's parts (`meanln`). */
  function MeanLog(ln: real -> real, row: seq<real>): real
    requires |row| > 0
  {
    Sum(Logs(ln, row)) / (|row| as real)
  }

  /** The clr image of one row. */
  function ClrRow(ln: real -> real, row: seq<real>): (r: seq<real>)
    ensures |r| == |row|
  {
    if |row| == 0 then []
    else
      var m := MeanLog(ln, row);
      seq(|row|, j requires 0 <= j < |row| => ln(row[j]) - m)
  }

  /** Subtracting `c` from every entry lowers the sum by `c` per entry. */
  lemma {:induction false} SumShift(s: seq<real>, c: real, t: seq<real>)
    requires |t| == |s|
    requires forall j :: 0 <= j < |s| ==> t[j] == s[j] - c
    ensures Sum(t) == Sum(s) - (|s| as real) * c
  {
    if |s| > 0 {
      var n := |s| - 1;
      SumShift(s[..n], c, t[..n]);
    }
  }

  /** A row of `n` copies of `c` sums to `n * c`. */
  lemma {:induction false} SumConstant(s: seq<real>, c: real)
    requires forall j :: 0 <= j < |s| ==> s[j] == c
    ensures Sum(s) == (|s| as real) * c
  {
    if |s| > 0 {
      SumConstant(s[..|s| - 1], c);
    }
  }

  /** Dividing `n * v` by a nonzero `n` gives back `v`. */
  lemma DivideProduct(n: real, v: real, w: real)
    requires n != 0.0
    ensures (n * v) / n == v
    ensures (w + n * v) / n == w / n + v
  {
  }

  /** The image of the clr lies in the clr-plane: every row sums to 0. */
  lemma ClrRowSumsToZero(ln: real -> real, row: seq<real>)
    ensures Sum(ClrRow(ln, row)) == 0.0
  {
    if |row| > 0 {
      var logs := Logs(ln, row);
      var n := |row| as real;
      var m := Sum(logs) / n;
      SumShift(logs, m, ClrRow(ln, row));
      assert n * m == Sum(logs);
    }
  }

  /** A composition whose parts are all equal maps to the origin. */
  lemma ClrRowEqualParts(ln: real -> real, row: seq<real>, x: real)
    requires forall j :: 0 <= j < |row| ==> row[j] == x
    ensures forall j :: 0 <= j < |row| ==> ClrRow(ln, row)[j] == 0.0
  {
    if |row| > 0 {
      var logs, v := Logs(ln, row), ln(x);
      SumConstant(logs, v);
      var n := |row| as real;
      calc {
        MeanLog(ln, row);
        Sum(logs) / n;
        { assert Sum(logs) == n * v; }
        (n * v) / n;
        { DivideProduct(n, v, 0.0); }
        v;
      }
    }
  }

  /** Scaling every part by `k` leaves the image alone, for a logarithm that
      turns products into sums: the clr sees only ratios between parts. */
  lemma ClrRowScaleInvariant(ln: real -> real, row: seq<real>, k: real, scaled: seq<real>)
    requires |scaled| == |row|
    requires forall j :: 0 <= j < |row| ==> scaled[j] == k * row[j]
    requires forall j :: 0 <= j < |row| ==> ln(k * row[j]) == ln(k) + ln(row[j])
    ensures ClrRow(ln, scaled) == ClrRow(ln, row)
  {
    if |row| > 0 {
      var logs := Logs(ln, row);
      var shifted := Logs(ln, scaled);
      var c := ln(k);
      forall j | 0 <= j < |row|
        ensures logs[j] == shifted[j] - c
      {
        assert shifted[j] == ln(k * row[j]);
      }
      SumShift(shifted, c, logs);
      var n := |row| as real;
      DivideProduct(n, c, Sum(logs));
      var m := MeanLog(ln, row);
      assert Sum(shifted) == Sum(logs) + n * c;
      assert MeanLog(ln, scaled) == Sum(shifted) / n;
      assert m == Sum(logs) / n;
      assert MeanLog(ln, scaled) == m + c;
      var a := ClrRow(ln, scaled);
      var b := ClrRow(ln, row);
      forall j | 0 <= j < |row|
        ensures a[j] == b[j]
      {
        assert a[j] == shifted[j] - (m + c);
      }
    }
  }

  /** `Clr(in, out)`: both `Dims` calls read row 0, so either matrix without
      rows panics; differing dimensions panic with "bad dimensions" before
      anything is written; otherwise every row of `out` is overwritten with the
      clr image of the same row of `in`. The result does not depend on the
      entries `out` held before. */
  method Clr(ln: real -> real, data: Matrix<real>, out: Matrix<real>) returns (r: Result<Matrix<real>>)
    ensures r.Panic? <==> |data| == 0 || |out| == 0 || !SameShape(data, out)
    ensures r.Panic? ==> (r.fault == IndexOutOfRange <==> |data| == 0 || |out| == 0)
    ensures r.Panic? ==> (r.fault == BadDimensions <==> |data| > 0 && |out| > 0)
    ensures r.Ok? ==> SameShape(r.value, data)
    ensures r.Ok? ==> forall i, j :: 0 <= i < |data| && 0 <= j < Cols(data) ==>
      r.value[i][j] == ln(data[i][j]) - Sum(Logs(ln, data[i])) / (Cols(data) as real)
    ensures r.Ok? ==> forall i :: 0 <= i < |data| ==> r.value[i] == ClrRow(ln, data[i])
    ensures r.Ok? ==> forall i :: 0 <= i < |data| ==> Sum(r.value[i]) == 0.0
  {
    var din := Dims(data);
    if din.Panic? {
      return Panic(din.fault);
    }
    var dout := Dims(out);
    if dout.Panic? {
      return Panic(dout.fault);
    }
    var rows, cols := din.value.0, din.value.1;
    if !(dout.value.0 == rows && dout.value.1 == cols) {
      return Panic(BadDimensions);
    }
    var o: seq<seq<real>> := out;
    var i := 0;
    while i < rows
      invariant 0 <= i <= rows
      invariant |o| == rows
      invariant forall k :: 0 <= k < rows ==> |o[k]| == cols
      invariant forall k :: 0 <= k < i ==> o[k] == ClrRow(ln, data[k])
    {
      var meanln := 0.0;
      var j := 0;
      while j < cols
        invariant 0 <= j <= cols
        invariant meanln == Sum(Logs(ln, data[i])[..j])
      {
        assert Logs(ln, data[i])[..j + 1][..j] == Logs(ln, data[i])[..j];
        meanln := meanln + ln(data[i][j]);
        j := j + 1;
      }
      assert Logs(ln, data[i])[..cols] == Logs(ln, data[i]);
      if cols > 0 {
        meanln := meanln / (cols as real);
      }
      var row := o[i];
      j := 0;
      while j < cols
        invariant 0 <= j <= cols
        invariant |row| == cols
        invariant forall k :: 0 <= k < j ==> row[k] == ClrRow(ln, data[i])[k]
      {
        row := row[j := ln(data[i][j]) - meanln];
        j := j + 1;
      }
      o := o[i := row];
      i := i + 1;
    }
    assert IsRectangular(o);
    forall k | 0 <= k < rows
      ensures Sum(o[k]) == 0.0
    {
      ClrRowSumsToZero(ln, data[k]);
    }
    return Ok(o);
  }
}
