# compositions core in Dafny

A model of the core of the Go repository ThePaw/compositions (mat.go declares the package `composition`, comp.go and fn.go declare `compositions`):

- `Matrix64` (mat.go) is a dense matrix kept as a slice of rows. The model covers its shape queries, its construction, its copy, clone, swap, transpose and equality operations, and the column-aligned text layout of `PrettyString`.
- The centred log-ratio transform `Clr` (comp.go) maps each row, a composition, to `ln x - mean(ln x)`.
- The integer helpers `imin`, `imax`, `iSign`, `iAbs` and `fact` come from fn.go.

Files:

- `outcomes.dfy` (module `Outcomes`): the `Result` type. A Go panic becomes `Panic(fault)`, where the fault is one of:
  - an index out of range, such as reading row 0 of a matrix without rows;
  - a negative `make` length;
  - `Clr`'s "bad dimensions";
  - `fact`'s negative argument.
- `matrix.dfy` (module `Mat`): `Matrix<T>` is a `seq<seq<T>>` whose rows all have the length of row 0.
  - The operations only move and compare entries, so the entry type is generic.
  - Go mutates in place. The model instead returns the updated matrix, or a panic.
  - Where Go allocates a new matrix, the zero value of the entry type is passed in.
- `pretty.dfy` (module `Pretty`): `PrettyString` over a matrix of cell texts, built line by line as the Go loop builds it:
  - line `i` opens with `[[` on the first line and ` [` on the others;
  - every cell is right-aligned to the widest text of its column, and neighbouring cells are separated by one space;
  - every line ends with `]` and a newline, and the last line has `](RxC)` before the newline.
- `comp.dfy` (module `Comp`): `Clr` over exact reals, with the natural logarithm passed in as a function `ln`.
- `fn.dfy` (module `Fn`): the integer helpers, over unbounded integers.

## Model

| member | source | states |
|---|---|---|
| Mat.New | mat.go:17-25 | succeeds exactly when nRow >= 0 and, with rows, nCol >= 0, otherwise panics with a negative length; the result has nRow rows of nCol entries, every one the zero value |
| Mat.Dims | mat.go:28-30 | panics (index out of range) exactly on a matrix without rows; otherwise gives (rows, columns), and every row has that many columns |
| Mat.Rows | mat.go:33-35 | the row count is 0 exactly for the matrix without rows |
| Mat.Cols | mat.go:38-43 | 0 for a matrix without rows; otherwise the common length of every row |
| Mat.CopyTo | mat.go:66-73 | panics exactly when `a` has entries outside `target`'s shape; otherwise keeps target's shape, holds a's entries at every position inside a's shape and target's own entries everywhere else |
| Mat.CopyFrom | mat.go:76-83 | panics exactly when the receiver has entries outside the source's shape; otherwise keeps the receiver's shape and holds the source's entries at every position |
| Mat.CopyBetweenSameShape | mat.go:66-83 | between matrices of one shape, `b.CopyTo(a)` and `a.CopyFrom(b)` both make `a` equal to `b` |
| Mat.CopyToIdempotent | mat.go:66-73 | copying the same source into the result a second time changes nothing |
| Mat.Clone | mat.go:87-95 | panics exactly on a matrix without rows (its `Dims` call); otherwise the clone equals the original |
| Mat.SwapRows | mat.go:98-105 | succeeds exactly when there are no columns or both indices are rows; rows i and j are exchanged, every other row is unchanged and the shape is kept |
| Mat.SwapRowsInvolution | mat.go:98-105 | swapping the same two rows twice gives the matrix back |
| Mat.SwapRowsSame | mat.go:98-105 | swapping a row with itself changes nothing |
| Mat.SwapCols | mat.go:108-115 | succeeds exactly when there are no rows or both indices are columns; in every row columns i and j are exchanged, every other entry is unchanged and the shape is kept |
| Mat.SwapColsInvolution | mat.go:108-115 | swapping the same two columns twice gives the matrix back |
| Mat.SwapColsSame | mat.go:108-115 | swapping a column with itself changes nothing |
| Mat.SwapColsViaTranspose | mat.go:108-115 | swapping columns i and j equals transposing, swapping rows i and j, and transposing back |
| Mat.Transpose | mat.go:272-281 | panics exactly on a matrix without rows; an r x c matrix becomes c x r with entry (i, j) equal to entry (j, i) of the original |
| Mat.TransposeTwice | mat.go:272-281 | with at least one row and one column, transposing twice gives the matrix back |
| Mat.TransposeTwiceNoColumns | mat.go:272-281 | with rows but no columns the transpose has no rows, so a second transpose panics in `Dims` |
| Mat.Equals | mat.go:286-300 | panics exactly when either matrix has no rows; differing dimensions give false; otherwise the answer is true exactly when the matrices are equal |
| Mat.EqualsSymmetric | mat.go:286-300 | comparing `a` with `b` gives the same outcome as comparing `b` with `a`, panics included |
| Mat.CloneEquals | mat.go:87-95 | a clone of a matrix with rows compares equal to its original |
| Mat.TransposeTwiceEquals | mat.go:272-300 | a matrix with rows and columns compares equal to its double transpose |
| Pretty.PadLeft | mat.go:258 | a padded cell text is as long as the column width, or as the text when the text is wider |
| Pretty.PadLeftContent | mat.go:258 | a padded cell text ends with the text itself and is spaces before it |
| Pretty.ColWidth | mat.go:238-244 | the width of a column is at least the length of each of its texts |
| Pretty.ColWidthAttained | mat.go:238-244 | the width of a column is the length of one of its texts, so it is the maximum |
| Pretty.Widths | mat.go:237-244 | one width per column, each at least the length of every text in that column |
| Pretty.Decimal | mat.go:262 | the row and column counts of the shape annotation are written with at least one character |
| Pretty.DecimalDigits | mat.go:262 | those texts are decimal digits without a leading zero and denote the count |
| Pretty.JoinLength | mat.go:254-259 | cells of widths `wds` joined by single spaces are as long as the widths plus one space between each pair |
| Pretty.JoinCell | mat.go:254-259 | in a joined row, cell j occupies the `wds[j]` characters starting after all earlier cells and their separators |
| Pretty.JoinSeparator | mat.go:255-257 | in a joined row, a space precedes every cell but the first |
| Pretty.LineSize | mat.go:247-265 | every line is the same length, except the last, which is longer by the shape annotation |
| Pretty.LineCell | mat.go:253-259 | in every line, cell (i, j) right-aligned to its column width sits at the same offset, `2 + Start(wds, j)` |
| Pretty.LineSeparator | mat.go:255-257 | in every line, one space precedes every cell but the first |
| Pretty.LineFrame | mat.go:248-264 | line i starts with `[[` for i = 0 and with ` [` otherwise; it closes its row with `]` at the same offset in every line; it ends with the newline, preceded by the shape annotation on the last line only |
| Pretty.LinesAt | mat.go:247-265 | line k of the layout is the line built for row k |
| Pretty.AllLinesShape | mat.go:247-265 | every line but the last is `LineLength` long, and the last ends with the shape annotation and a newline |
| Pretty.LinesGrid | mat.go:246-267 | in the returned text, line i appears in full at offset `LineOffset(LineLength, i)`, which is `i * LineLength` |
| Pretty.LinesEnd | mat.go:260-267 | the text is `rows * LineLength` long plus the annotation, and ends with the annotation and a newline right after the last row's bracket |
| Pretty.PrettyString | mat.go:227-268 | the empty string exactly for a matrix without rows |
| Pretty.LayoutLine | mat.go:246-267 | with column widths that fit every text, the layout holds line i whole at offset `LineOffset(LineLength, i)` |
| Pretty.PrettyStringLine | mat.go:227-268 | in the returned text, line i (row i's cells padded to the widest text of their columns, between its brackets) appears whole at offset `i * LineLength` |
| Pretty.PrettyStringShape | mat.go:260-267 | for a matrix with rows, the text is `rows * LineLength` characters plus `](RxC)`, and ends with `](RxC)` and a newline |
| Comp.Clr | comp.go:23-41 | panics exactly when either matrix has no rows (index out of range) or the shapes differ (bad dimensions); otherwise every output entry is `ln x` minus the mean of `ln` over its row, the output has the input's shape regardless of what `out` held before, and every output row sums to 0 |
| Comp.ClrRowSumsToZero | comp.go:31-40 | the clr image of a row sums to 0: it lies in the clr-plane |
| Comp.ClrRowEqualParts | comp.go:31-40 | a composition whose parts are all equal maps to a row of zeros |
| Comp.ClrRowScaleInvariant | comp.go:31-40 | when `ln` turns products into sums, scaling every part by k leaves the clr image unchanged |
| Fn.IMin | fn.go:29-34 | the result is one of the arguments and no larger than either |
| Fn.IMax | fn.go:36-41 | the result is one of the arguments and no smaller than either |
| Fn.MinPlusMax | fn.go:29-41 | the minimum and the maximum of a pair add up to the pair's sum |
| Fn.ISign | fn.go:43-51 | 0 iff the argument is 0, -1 iff it is negative, 1 iff it is positive |
| Fn.IAbs | fn.go:68-77 | non-negative, either n or -n, and equal to `iSign(n) * n` |
| Fn.SquareRounds | fn.go:101-105 | rounds of `f *= f` leave 0 and 1 where they are and keep a non-negative value non-negative |
| Fn.FactAsWritten | fn.go:94-106 | as written: panics exactly for a negative argument, and returns 1 for every other argument |
| Fn.FactAsWrittenIsNotFactorial | fn.go:93-105 | for every n >= 2 the value returned as written differs from n! |
| Fn.FactOfThree | fn.go:101-105 | fact(3) returns 1 as written, where 3! is 6 |
| Fn.Fact | fn.go:93-106 | corrected: panics exactly for a negative argument, and returns n! for every other argument |

## Left out

- `ReadCsvMatrix64` is left out: it does file I/O, parses floats, and panics on bad input.
- `WriteCSV`, `WriteCSV3`, `WriteGo`, `WriteGo3` and `Print` are left out: they print to standard output with float formatting.
- The `fmt.Sprint` rendering of each entry inside `PrettyString` is left out: it is a library call. The layout takes the cell texts as input. Texts are taken to be ASCII, so byte length equals padded width. A width of 0 (`%0s`) pads nothing.
- IEEE-754 behaviour is left out. This covers:
  - NaN and -Inf from `ln` of a non-positive part;
  - the NaN `Clr` computes as the mean of a row with no columns. No entry is written in that case, so the model skips the division.
  - NaN entries, which make `Equals` non-reflexive.
  - signed zeros: Go's `!=` at mat.go:294 treats -0.0 and +0.0 as equal, so `Equals` reports true for matrices that differ only in the sign of a zero, where the model's generic equality tells them apart.
- `Clr` works over exact reals with the logarithm as a parameter. `ln` itself is `math.Log`, a foreign call.
- The floating-point helpers `min`, `max`, `sign`, `iRound` and `cube` are left out.
- The random helpers `unif` and `unif64` are left out: they use `math/rand`.
- `NewMatrix64` slices every row out of one shared buffer. The model keeps rows as independent sequences. Within one matrix no modelled operation can observe that sharing. Ragged slices (rows of differing lengths) are excluded by the matrix type.
- Aliasing between arguments is not modelled. The two matrices given to `CopyTo`, `CopyFrom` and `Clr` are independent values in the model, but Go slices can share rows between them.
  - Passing the same matrix twice agrees with the model. `a.CopyTo(a)` and `a.CopyFrom(a)` change nothing, which is `Mat.CopyBetweenSameShape` with `b = a`. `Clr(m, m)` reads each entry before it overwrites that same entry.
  - Rows shared at different indices do not agree. For example, with `t := Matrix64{a[1], a[0]}`, `a.CopyTo(t)` first overwrites `a[1]` through `t[0]` and then copies the changed row into `a[0]`. Likewise, in `Clr`, an `out[0]` that is `in[1]` overwrites input row 1 before it is read.
- A Go method that panics midway may already have written some entries. The model returns only the panic. `CopyTo` and `CopyFrom` can write part of the matrix before they run out of range. `SwapRows` and `SwapCols` panic before their first write.
- The commented-out first versions of `CopyTo`, `CopyFrom` and `WriteCSV` are left out, and so is the unimplemented inverse clr.
- Mat.New: Go's `int` is 64 bits wide, and the model uses unbounded integers. A product `nCol*nRow` that overflows is not modelled.
- Fn.IAbs: the overflow of `iAbs` at the minimum 64-bit integer is not modelled, for the same reason.
- Fn.Fact: overflow of the corrected product for large n is not modelled, for the same reason.
- The end-to-end statement "cell (i, j) sits at `i * LineLength + 2 + Start(wds, j)` in the returned text" is not one lemma. It follows by chaining two lemmas:
  - `Pretty.PrettyStringLine` places line i in the returned text at `i * LineLength`;
  - `Pretty.LineCell` places cell j at `2 + Start(wds, j)` in that line.

## Findings

| source | as written | input that shows it | evidently intended | confidence | as-written member | corrected member |
|---|---|---|---|---|---|---|
| fn.go:101-105 | `f := 1` then `f *= f` n times, so `f` stays 1 and `fact` returns 1 for every n >= 0 | n = 3 returns 1 | the factorial the comment on `fact` promises: `f *= i + 1` gives n!, which is 6 for n = 3 | high; not executed | Fn.FactAsWritten (with Fn.FactAsWrittenIsNotFactorial and Fn.FactOfThree) | Fn.Fact |
