/** The column-aligned text layout of `PrettyString` (mat.go).

The rendering of each entry to text is not modelled: the layout starts from a
matrix of cell texts. Texts are taken to be ASCII, so a text's length is both
its byte count (what `len` measures) and its width when padded.

For a 2 x 2 matrix the layout is

    [[ 1 10]
     [22  3]](2x2)

one line per row, each ending in a newline; cells are right-aligned to the
widest text of their column and separated by one space.
 */
module Pretty {
  import opened Mat

  /** `n` spaces. */
  function Spaces(n: nat): (r: string)
    ensures |r| == n
  {
    if n == 0 then "" else Spaces(n - 1) + " "
  }

  lemma {:induction false} SpacesAreSpaces(n: nat)
    ensures forall k :: 0 <= k < n ==> Spaces(n)[k] == ' '
  {
    if n > 0 {
      SpacesAreSpaces(n - 1);
    }
  }

  /** `fmt.Sprintf("%<w>s", s)`: `s` right-aligned in a field of width `w`,
      left-padded with spaces; a text wider than the field is kept whole. */
  function PadLeft(s: string, w: nat): (r: string)
    ensures |r| == if |s| < w then w else |s|
  {
    if |s| < w then Spaces(w - |s|) + s else s
  }

  /** A padded text ends with the text itself, and everything before it is a
      space. */
  lemma PadLeftContent(s: string, w: nat)
    ensures PadLeft(s, w)[|PadLeft(s, w)| - |s|..] == s
    ensures forall k :: 0 <= k < |PadLeft(s, w)| - |s| ==> PadLeft(s, w)[k] == ' '
  {
    if |s| < w {
      SpacesAreSpaces(w - |s|);
    }
  }

  /** Width of column `j` over its first `n` rows: the length of its longest
      text, and 0 when there is none. */
  function ColWidth(sa: Matrix<string>, j: nat, n: nat): (r: nat)
    requires n <= |sa| && j < Cols(sa)
    ensures forall i :: 0 <= i < n ==> |sa[i][j]| <= r
  {
    if n == 0 then 0
    else
      var w := ColWidth(sa, j, n - 1);
      if |sa[n - 1][j]| > w then |sa[n - 1][j]| else w
  }

  /** The width of a column is the length of one of its texts: it is the
      maximum, not merely a bound. */
  lemma {:induction false} ColWidthAttained(sa: Matrix<string>, j: nat, n: nat)
    requires 0 < n <= |sa| && j < Cols(sa)
    ensures exists i :: 0 <= i < n && |sa[i][j]| == ColWidth(sa, j, n)
  {
    if n > 1 && ColWidth(sa, j, n) == ColWidth(sa, j, n - 1) {
      ColWidthAttained(sa, j, n - 1);
      var i :| 0 <= i < n - 1 && |sa[i][j]| == ColWidth(sa, j, n - 1);
      assert |sa[i][j]| == ColWidth(sa, j, n);
    } else {
      assert |sa[n - 1][j]| == ColWidth(sa, j, n);
    }
  }

  /** `wds`: the width of every column. */
  function Widths(sa: Matrix<string>): (r: seq<nat>)
    ensures |r| == Cols(sa)
    ensures forall i, j :: 0 <= i < |sa| && 0 <= j < Cols(sa) ==> |sa[i][j]| <= r[j]
  {
    seq(Cols(sa), j requires 0 <= j < Cols(sa) => ColWidth(sa, j, |sa|))
  }

  /** The cells of one row, each padded to its column's width. */
  function Padded(row: seq<string>, wds: seq<nat>): (r: seq<string>)
    requires |row| == |wds|
    ensures |r| == |row|
  {
    seq(|row|, j requires 0 <= j < |row| => PadLeft(row[j], wds[j]))
  }

  /** The padded cells of a row, one space between neighbours, built as the
      loop appends them. */
  function Join(ps: seq<string>): string
  {
    if |ps| == 0 then ""
    else if |ps| == 1 then ps[0]
    else Join(ps[..|ps| - 1]) + " " + ps[|ps| - 1]
  }

  /** Offset of cell `j` within a joined row: each earlier cell takes its
      column's width plus one separating space. */
  function Start(wds: seq<nat>, j: nat): nat
    requires j <= |wds|
  {
    if j == 0 then 0 else Start(wds, j - 1) + wds[j - 1] + 1
  }

  /** Length of a joined row of cells of widths `wds`. */
  function JoinedWidth(wds: seq<nat>): nat
  {
    if |wds| == 0 then 0 else Start(wds, |wds|) - 1
  }

  lemma {:induction false} StartOfPrefix(wds: seq<nat>, n: nat, j: nat)
    requires j <= n <= |wds|
    ensures Start(wds[..n], j) == Start(wds, j)
  {
    if j > 0 {
      StartOfPrefix(wds, n, j - 1);
    }
  }

  /** A slice inside the left operand of a concatenation. */
  lemma SliceLeft(a: string, b: string, x: nat, y: nat)
    requires x <= y <= |a|
    ensures (a + b)[x..y] == a[x..y]
  {
  }

  /** A slice inside the right operand of a concatenation. */
  lemma SliceRight(a: string, b: string, x: nat, y: nat)
    requires |a| <= x <= y <= |a| + |b|
    ensures (a + b)[x..y] == b[x - |a|..y - |a|]
  {
  }

  /** A row of two or more cells is the row without its last cell, a space,
      and the last cell. */
  lemma JoinLast(ps: seq<string>)
    requires |ps| > 1
    ensures Join(ps) == Join(ps[..|ps| - 1]) + " " + ps[|ps| - 1]
  {
  }

  /** A joined row is as long as its cells' widths plus the separators. */
  lemma {:induction false} JoinLength(ps: seq<string>, wds: seq<nat>)
    requires |ps| == |wds|
    requires forall j :: 0 <= j < |ps| ==> |ps[j]| == wds[j]
    ensures |Join(ps)| == JoinedWidth(wds)
  {
    var n := |ps|;
    if n == 1 {
      assert Start(wds, 1) == wds[0] + 1;
    } else if n > 1 {
      JoinLength(ps[..n - 1], wds[..n - 1]);
      JoinLast(ps);
      StartOfPrefix(wds, n - 1, n - 1);
    }
  }

  /** Cell `j` of a joined row occupies the `wds[j]` characters from
      `Start(wds, j)` on. */
  lemma {:induction false} JoinCell(ps: seq<string>, wds: seq<nat>, j: nat)
    requires |ps| == |wds| && j < |ps|
    requires forall k :: 0 <= k < |ps| ==> |ps[k]| == wds[k]
    ensures Start(wds, j) + wds[j] <= |Join(ps)|
    ensures Join(ps)[Start(wds, j)..Start(wds, j) + wds[j]] == ps[j]
  {
    var n := |ps|;
    JoinLength(ps, wds);
    if n > 1 {
      var front, fw := ps[..n - 1], wds[..n - 1];
      JoinLength(front, fw);
      JoinLast(ps);
      var left := Join(front) + " ";
      StartOfPrefix(wds, n - 1, n - 1);
      StartOfPrefix(wds, n - 1, j);
      if j < n - 1 {
        JoinCell(front, fw, j);
        SliceLeft(Join(front), " ", Start(wds, j), Start(wds, j) + wds[j]);
        SliceLeft(left, ps[n - 1], Start(wds, j), Start(wds, j) + wds[j]);
      } else {
        SliceRight(left, ps[n - 1], Start(wds, j), Start(wds, j) + wds[j]);
      }
    }
  }

  /** A space precedes every cell of a joined row but the first. */
  lemma {:induction false} JoinSeparator(ps: seq<string>, wds: seq<nat>, j: nat)
    requires |ps| == |wds| && 0 < j < |ps|
    requires forall k :: 0 <= k < |ps| ==> |ps[k]| == wds[k]
    ensures Start(wds, j) <= |Join(ps)|
    ensures Join(ps)[Start(wds, j) - 1] == ' '
  {
    var n := |ps|;
    JoinLength(ps, wds);
    var front, fw := ps[..n - 1], wds[..n - 1];
    JoinLength(front, fw);
    JoinLast(ps);
    StartOfPrefix(wds, n - 1, j);
    if j < n - 1 {
      JoinSeparator(front, fw, j);
    } else {
      StartOfPrefix(wds, n - 1, n - 1);
    }
  }

  /** The decimal digits of `n`, as `%d` writes them. */
  function Decimal(n: nat): (r: string)
    ensures |r| > 0
  {
    var d := [(n % 10) as char + '0'];
    if n < 10 then d else Decimal(n / 10) + d
  }

  /** `Decimal(n)` is a string of digits without a leading zero that denotes
      `n`. */
  lemma {:induction false} DecimalDigits(n: nat)
    ensures forall k :: 0 <= k < |Decimal(n)| ==> '0' <= Decimal(n)[k] <= '9'
    ensures |Decimal(n)| > 1 ==> Decimal(n)[0] != '0'
    ensures DecimalValue(Decimal(n)) == n
  {
    if n >= 10 {
      DecimalDigits(n / 10);
      var front, d := Decimal(n / 10), [(n % 10) as char + '0'];
      assert (front + d)[..|front + d| - 1] == front;
    }
  }

  /** The number a string of decimal digits denotes. */
  function DecimalValue(s: string): int
  {
    if |s| == 0 then 0
    else DecimalValue(s[..|s| - 1]) * 10 + (s[|s| - 1] as int - '0' as int)
  }

  /** The shape annotation `](RxC)` closing the last line. */
  function ShapeSuffix(sa: Matrix<string>): string
  {
    "](" + Decimal(|sa|) + "x" + Decimal(Cols(sa)) + ")"
  }

  /** Column widths `wds` that fit every cell text of `sa`. */
  predicate WidthsFit(sa: Matrix<string>, wds: seq<nat>)
  {
    && |wds| == Cols(sa)
    && forall i, j :: 0 <= i < |sa| && 0 <= j < Cols(sa) ==> |sa[i][j]| <= wds[j]
  }

  /** The opening of line `i`: `[[` on the first line, ` [` on the others. */
  function Opening(i: nat): string
  {
    (if i == 0 then "[" else " ") + "["
  }

  /** The closing of line `i` of `n`: the row's bracket, the shape annotation
      `shape` on the last line only, and the newline. */
  function Closing(n: nat, shape: string, i: nat): string
  {
    "]" + (if i == n - 1 then shape else "") + "\n"
  }

  /** Line `i` of the layout with column widths `wds`, the last line closed
      by `shape`. */
  function Line(sa: Matrix<string>, wds: seq<nat>, shape: string, i: nat): string
    requires i < |sa| && |wds| == Cols(sa)
  {
    Opening(i) + Join(Padded(sa[i], wds)) + Closing(|sa|, shape, i)
  }

  /** The first `n` lines of the layout, the last line closed by `shape`,
      produced one after another as the row loop produces them. */
  function Lines(sa: Matrix<string>, wds: seq<nat>, shape: string, n: nat): (r: seq<string>)
    requires n <= |sa| && |wds| == Cols(sa)
    ensures |r| == n
  {
    if n == 0 then [] else Lines(sa, wds, shape, n - 1) + [Line(sa, wds, shape, n - 1)]
  }

  /** All the lines of the layout. */
  function AllLines(sa: Matrix<string>, wds: seq<nat>, shape: string): (r: seq<string>)
    requires |wds| == Cols(sa)
    ensures |r| == |sa|
  {
    Lines(sa, wds, shape, |sa|)
  }

  /** Line `k` of the layout is `Line(sa, wds, shape, k)`. */
  lemma {:induction false} LinesAt(sa: Matrix<string>, wds: seq<nat>, shape: string, n: nat, k: nat)
    requires k < n <= |sa| && |wds| == Cols(sa)
    ensures Lines(sa, wds, shape, n)[k] == Line(sa, wds, shape, k)
  {
    if k < n - 1 {
      LinesAt(sa, wds, shape, n - 1, k);
    }
  }

  /** Strings appended in order, as the loop of `PrettyString` appends its
      lines. */
  function Concat(ls: seq<string>): string
  {
    if |ls| == 0 then "" else Concat(ls[..|ls| - 1]) + ls[|ls| - 1]
  }

  /** `PrettyString` over the cell texts: the empty string for a matrix
      without rows, otherwise one line per row, the cells padded to the
      widths of their columns and the last line closed by `](RxC)`. */
  function PrettyString(sa: Matrix<string>): (r: string)
    ensures r == "" <==> |sa| == 0
  {
    if |sa| == 0 then ""
    else
      var ls := AllLines(sa, Widths(sa), ShapeSuffix(sa));
      assert |ls[|sa| - 1]| > 0;
      Concat(ls)
  }

  /** Length of every line but the last: the two opening characters, the
      joined cells, the closing bracket and the newline. */
  function LineLength(wds: seq<nat>): nat
  {
    JoinedWidth(wds) + 4
  }

  /** Offset of line `i` when every line before it is `len` long. */
  function LineOffset(len: nat, i: nat): nat
  {
    if i == 0 then 0 else LineOffset(len, i - 1) + len
  }

  lemma {:induction false} LineOffsetIsProduct(len: nat, i: nat)
    ensures LineOffset(len, i) == i * len
  {
    if i > 0 {
      LineOffsetIsProduct(len, i - 1);
    }
  }

  /** With fitting widths every padded cell has exactly its column's width. */
  lemma PaddedWidths(sa: Matrix<string>, wds: seq<nat>, i: nat)
    requires i < |sa| && WidthsFit(sa, wds)
    ensures forall j :: 0 <= j < Cols(sa) ==> |Padded(sa[i], wds)[j]| == wds[j]
  {
    forall j | 0 <= j < Cols(sa)
      ensures |Padded(sa[i], wds)[j]| == wds[j]
    {
      assert |sa[i][j]| <= wds[j];
    }
  }

  /** A joined row between a two-character opening and a closing: cell `j`
      sits `2 + Start(wds, j)` characters in. */
  lemma FramedCell(o: string, ps: seq<string>, wds: seq<nat>, c: string, j: nat)
    requires |o| == 2 && |ps| == |wds| && j < |ps|
    requires forall k :: 0 <= k < |ps| ==> |ps[k]| == wds[k]
    ensures 2 + Start(wds, j) + wds[j] <= |o + Join(ps) + c|
    ensures (o + Join(ps) + c)[2 + Start(wds, j)..2 + Start(wds, j) + wds[j]] == ps[j]
  {
    JoinCell(ps, wds, j);
    FramedSlice(o, Join(ps), c, Start(wds, j), Start(wds, j) + wds[j]);
  }

  /** A slice of the middle of `o + mid + c`, for a two-character `o`. */
  lemma FramedSlice(o: string, mid: string, c: string, x: nat, y: nat)
    requires |o| == 2 && x <= y <= |mid|
    ensures 2 + y <= |o + mid + c|
    ensures (o + mid + c)[2 + x..2 + y] == mid[x..y]
  {
    SliceRight(o, mid, 2 + x, 2 + y);
    SliceLeft(o + mid, c, 2 + x, 2 + y);
  }

  /** The separator before cell `j` sits `1 + Start(wds, j)` characters in. */
  lemma FramedSeparator(o: string, ps: seq<string>, wds: seq<nat>, c: string, j: nat)
    requires |o| == 2 && |ps| == |wds| && 0 < j < |ps|
    requires forall k :: 0 <= k < |ps| ==> |ps[k]| == wds[k]
    ensures 1 + Start(wds, j) < |o + Join(ps) + c|
    ensures (o + Join(ps) + c)[1 + Start(wds, j)] == ' '
  {
    JoinSeparator(ps, wds, j);
    assert (o + Join(ps) + c)[1 + Start(wds, j)] == Join(ps)[Start(wds, j) - 1];
  }

  /** The opening is the first two characters and the closing follows the
      joined row. */
  lemma FramedEnds(o: string, ps: seq<string>, wds: seq<nat>, c: string)
    requires |o| == 2 && |ps| == |wds|
    requires forall k :: 0 <= k < |ps| ==> |ps[k]| == wds[k]
    ensures |o + Join(ps) + c| == 2 + JoinedWidth(wds) + |c|
    ensures (o + Join(ps) + c)[..2] == o
    ensures (o + Join(ps) + c)[2 + JoinedWidth(wds)..] == c
  {
    JoinLength(ps, wds);
    assert o + Join(ps) + c == o + (Join(ps) + c);
  }

  /** Every line but the last is `LineLength` long; the last one is longer by
      the shape annotation. */
  lemma LineSize(sa: Matrix<string>, wds: seq<nat>, shape: string, i: nat)
    requires i < |sa| && WidthsFit(sa, wds)
    ensures |Line(sa, wds, shape, i)| == LineLength(wds) + (if i == |sa| - 1 then |shape| else 0)
  {
    PaddedWidths(sa, wds, i);
    FramedEnds(Opening(i), Padded(sa[i], wds), wds, Closing(|sa|, shape, i));
  }

  /** In every line the text of cell (i, j), right-aligned to the width of
      column `j`, starts at the same offset `2 + Start(wds, j)`. */
  lemma LineCell(sa: Matrix<string>, wds: seq<nat>, shape: string, i: nat, j: nat)
    requires i < |sa| && j < Cols(sa) && WidthsFit(sa, wds)
    ensures 2 + Start(wds, j) + wds[j] <= |Line(sa, wds, shape, i)|
    ensures Line(sa, wds, shape, i)[2 + Start(wds, j)..2 + Start(wds, j) + wds[j]] == PadLeft(sa[i][j], wds[j])
  {
    PaddedWidths(sa, wds, i);
    FramedCell(Opening(i), Padded(sa[i], wds), wds, Closing(|sa|, shape, i), j);
  }

  /** In every line one space precedes every cell but the first. */
  lemma LineSeparator(sa: Matrix<string>, wds: seq<nat>, shape: string, i: nat, j: nat)
    requires i < |sa| && 0 < j < Cols(sa) && WidthsFit(sa, wds)
    ensures 1 + Start(wds, j) < |Line(sa, wds, shape, i)|
    ensures Line(sa, wds, shape, i)[1 + Start(wds, j)] == ' '
  {
    PaddedWidths(sa, wds, i);
    FramedSeparator(Opening(i), Padded(sa[i], wds), wds, Closing(|sa|, shape, i), j);
  }

  /** Line `i` opens with `[[` (first line) or ` [` (the others), closes its
      row with `]` at the same offset in every line, and ends with the
      newline, preceded by the shape annotation on the last line only. */
  lemma LineFrame(sa: Matrix<string>, wds: seq<nat>, shape: string, i: nat)
    requires i < |sa| && WidthsFit(sa, wds)
    ensures |Line(sa, wds, shape, i)| >= LineLength(wds)
    ensures Line(sa, wds, shape, i)[..2] == (if i == 0 then "[[" else " [")
    ensures Line(sa, wds, shape, i)[LineLength(wds) - 2] == ']'
    ensures Line(sa, wds, shape, i)[LineLength(wds) - 1..] == (if i == |sa| - 1 then shape + "\n" else "\n")
  {
    var c := Closing(|sa|, shape, i);
    PaddedWidths(sa, wds, i);
    FramedEnds(Opening(i), Padded(sa[i], wds), wds, c);
    assert Line(sa, wds, shape, i)[LineLength(wds) - 2..] == c;
    assert c[1..] == (if i == |sa| - 1 then shape + "\n" else "\n");
  }

  lemma {:induction false} ConcatLength(ls: seq<string>, len: nat, n: nat)
    requires n <= |ls|
    requires forall i :: 0 <= i < n ==> |ls[i]| == len
    ensures |Concat(ls[..n])| == LineOffset(len, n)
  {
    if n > 0 {
      ConcatLength(ls, len, n - 1);
      assert ls[..n][..n - 1] == ls[..n - 1];
    }
  }

  /** In strings appended in order, string `i` starts at `LineOffset(len, i)`
      when every string before it is `len` long. */
  lemma {:induction false} ConcatContains(ls: seq<string>, len: nat, n: nat, i: nat)
    requires i < n <= |ls|
    requires forall k :: 0 <= k < n - 1 ==> |ls[k]| == len
    ensures LineOffset(len, i) + |ls[i]| <= |Concat(ls[..n])|
    ensures Concat(ls[..n])[LineOffset(len, i)..LineOffset(len, i) + |ls[i]|] == ls[i]
  {
    var prev := Concat(ls[..n - 1]);
    ConcatLength(ls, len, n - 1);
    assert ls[..n][..n - 1] == ls[..n - 1];
    assert Concat(ls[..n]) == prev + ls[n - 1];
    var x, y := LineOffset(len, i), LineOffset(len, i) + |ls[i]|;
    if i == n - 1 {
      SliceRight(prev, ls[n - 1], x, y);
    } else {
      ConcatContains(ls, len, n - 1, i);
      SliceLeft(prev, ls[n - 1], x, y);
    }
  }

  /** Strings appended in order, all but the last `len` long, form a grid:
      string `i` starts at `LineOffset(len, i)`. */
  lemma ConcatGridLines(ls: seq<string>, len: nat)
    requires forall k :: 0 <= k < |ls| - 1 ==> |ls[k]| == len
    ensures forall i :: 0 <= i < |ls| ==>
      LineOffset(len, i) + |ls[i]| <= |Concat(ls)| &&
      Concat(ls)[LineOffset(len, i)..LineOffset(len, i) + |ls[i]|] == ls[i]
  {
    var n := |ls|;
    assert ls[..n] == ls;
    forall i | 0 <= i < n
      ensures LineOffset(len, i) + |ls[i]| <= |Concat(ls)|
      ensures Concat(ls)[LineOffset(len, i)..LineOffset(len, i) + |ls[i]|] == ls[i]
    {
      ConcatContains(ls, len, n, i);
    }
  }

  /** When the last string ends in `tail` from position `len - 1` on, so does
      the whole text, whose length follows from the grid. */
  lemma ConcatGridTail(ls: seq<string>, len: nat, tail: string)
    requires |ls| > 0 && len > 0
    requires forall k :: 0 <= k < |ls| - 1 ==> |ls[k]| == len
    requires |ls[|ls| - 1]| >= len && ls[|ls| - 1][len - 1..] == tail
    ensures |Concat(ls)| == LineOffset(len, |ls|) + |tail| - 1
    ensures Concat(ls)[LineOffset(len, |ls| - 1) + len - 1..] == tail
  {
    var n := |ls|;
    ConcatLength(ls, len, n - 1);
    assert Concat(ls) == Concat(ls[..n - 1]) + ls[n - 1];
    assert Concat(ls)[LineOffset(len, n - 1) + len - 1..] == ls[n - 1][len - 1..];
  }

  /** Every line but the last is `LineLength(wds)` long, and the last one
      ends with `shape` and the newline. */
  lemma AllLinesShape(sa: Matrix<string>, wds: seq<nat>, shape: string)
    requires |sa| > 0 && WidthsFit(sa, wds)
    ensures forall k :: 0 <= k < |sa| - 1 ==> |AllLines(sa, wds, shape)[k]| == LineLength(wds)
    ensures |AllLines(sa, wds, shape)[|sa| - 1]| >= LineLength(wds)
    ensures AllLines(sa, wds, shape)[|sa| - 1][LineLength(wds) - 1..] == shape + "\n"
  {
    forall k | 0 <= k < |sa| - 1
      ensures |AllLines(sa, wds, shape)[k]| == LineLength(wds)
    {
      LinesAt(sa, wds, shape, |sa|, k);
      LineSize(sa, wds, shape, k);
    }
    LinesAt(sa, wds, shape, |sa|, |sa| - 1);
    LineFrame(sa, wds, shape, |sa| - 1);
  }

  /** The layout is a grid: line `i` starts at `LineOffset(LineLength(wds), i)`,
      which is `i * LineLength(wds)` by `LineOffsetIsProduct`. */
  lemma LinesGrid(sa: Matrix<string>, wds: seq<nat>, shape: string)
    requires |sa| > 0 && WidthsFit(sa, wds)
    ensures var ls, len := AllLines(sa, wds, shape), LineLength(wds);
      forall i :: 0 <= i < |sa| ==>
        && LineOffset(len, i) + |ls[i]| <= |Concat(ls)|
        && Concat(ls)[LineOffset(len, i)..LineOffset(len, i) + |ls[i]|] == ls[i]
  {
    AllLinesShape(sa, wds, shape);
    ConcatGridLines(AllLines(sa, wds, shape), LineLength(wds));
  }

  /** The layout is `LineOffset(LineLength(wds), |sa|)` long plus the shape
      annotation, and ends with `shape` and a newline right after the last
      row's closing bracket. */
  lemma LinesEnd(sa: Matrix<string>, wds: seq<nat>, shape: string)
    requires |sa| > 0 && WidthsFit(sa, wds)
    ensures var ls, len := AllLines(sa, wds, shape), LineLength(wds);
      && |Concat(ls)| == LineOffset(len, |sa|) + |shape|
      && Concat(ls)[LineOffset(len, |sa| - 1) + len - 1..] == shape + "\n"
  {
    AllLinesShape(sa, wds, shape);
    ConcatGridTail(AllLines(sa, wds, shape), LineLength(wds), shape + "\n");
  }

  /** In the text `PrettyString` returns, line `i` (the row's cells padded to
      the widest text of their columns, framed by its brackets) appears whole
      at offset `LineOffset(LineLength(Widths(sa)), i)`, which is
      `i * LineLength(Widths(sa))`. */
  lemma PrettyStringLine(sa: Matrix<string>, i: nat)
    requires i < |sa|
    ensures var wds := Widths(sa);
      var line, at := Line(sa, wds, ShapeSuffix(sa), i), LineOffset(LineLength(wds), i);
      && at == i * LineLength(wds)
      && at + |line| <= |PrettyString(sa)|
      && PrettyString(sa)[at..at + |line|] == line
  {
    var wds := Widths(sa);
    LayoutLine(sa, wds, ShapeSuffix(sa), i);
    LineOffsetIsProduct(LineLength(wds), i);
  }

  /** In the layout with fitting widths `wds`, line `i` appears whole at
      offset `LineOffset(LineLength(wds), i)`. */
  lemma LayoutLine(sa: Matrix<string>, wds: seq<nat>, shape: string, i: nat)
    requires i < |sa| && WidthsFit(sa, wds)
    ensures var line, at := Line(sa, wds, shape, i), LineOffset(LineLength(wds), i);
      && at + |line| <= |Concat(AllLines(sa, wds, shape))|
      && Concat(AllLines(sa, wds, shape))[at..at + |line|] == line
  {
    LinesGrid(sa, wds, shape);
    LinesAt(sa, wds, shape, |sa|, i);
  }

  /** The text `PrettyString` returns for a matrix with rows ends with the
      `](RxC)` annotation and a newline, right after the last row's cells. */
  lemma PrettyStringShape(sa: Matrix<string>)
    requires |sa| > 0
    ensures var len := LineLength(Widths(sa));
      && |PrettyString(sa)| == |sa| * len + |ShapeSuffix(sa)|
      && PrettyString(sa)[|sa| * len - 1..] == ShapeSuffix(sa) + "\n"
  {
    var wds, shape := Widths(sa), ShapeSuffix(sa);
    var len := LineLength(wds);
    LinesEnd(sa, wds, shape);
    LineOffsetIsProduct(len, |sa|);
    assert LineOffset(len, |sa| - 1) + len - 1 == |sa| * len - 1;
  }
}
