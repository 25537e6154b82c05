# Matrix class hierarchy, modelled in Dafny

The system is a small C++ class hierarchy of integer matrices, written in
three versions (`mainV1.cpp`, `mainV2.cpp`, `main.cpp`). Every kind of matrix
answers `operator()(row, col)` with a mutable reference into its storage and
throws `std::out_of_range` outside `[0, height) x [0, width)`. There are three
storage kinds:

- **dense** (`matrix_dense`): a column-major vector of `height * width`
  elements, cell `(row, col)` at `row + col * height`;
- **upper triangular** (`matrix_triangulaire_sup`): a row-major packed vector
  of the cells with `row <= col`, at `col + row * width - row(row+1)/2`, plus
  one scalar `valInf` that every cell below the diagonal refers to;
- **diagonal** (`matrix_diag`): a vector of `min(height, width)` diagonal
  elements plus one scalar `defaultVal` that every off-diagonal cell refers to.

On top of them sit the default `trace()` of the base class `matrix_t_`, the
per-kind trace overrides that walk the storage directly, the double-dispatch
`add` of `mainV2.cpp` (the result kind depends on both runtime kinds), and
the `operator+` of `main.cpp`, which always builds a dense result.

The project has five modules:

- `Errors` (`errors.dfy`): the two exceptions as values (`OutOfRange` for
  `std::out_of_range`, `SizeMismatch` for the `std::runtime_error` of `add`)
  and the `Result` / `Outcome` wrappers.
- `Layout` (`layout.dfy`): the pure index arithmetic. A reference handed out
  by `operator()` is a `Slot`: an element of `data`, or the `Shared` scalar.
  `DenseSlot`, `TriangularSlot` and `DiagonalSlot` compute it, or the
  exception.
- `Matrices` (`matrices.dfy`): the three classes (`Dense`, `UpperTriangular`,
  `Diagonal`), whose fields are updated in place. `Get` reads and `Set`
  writes through the reference `operator()` returns. The classes also hold
  the trace overrides and every `add` overload. The datatype `Matrix` is the
  polymorphic `matrix_t_`: it dispatches to the concrete class. It comes with
  the default trace and the top-level `Add`.
- `OperatorPlus` (`plus.dfy`): `matrix_t_::operator+` of `main.cpp`.
- `Demo` (`demo.dfy`): the matrices of the `main.cpp` driver with the traces
  and sums they produce, the shared-scalar behaviour of a diagonal matrix,
  and the operands that show the finding below.

The three versions are equivalent for `int`, so each constructor, accessor
and trace is modelled once, and the table cites every version where it
applies. They differ in these ways, none of which changes a result:

- `main.cpp` sums the diagonal vector with a range-`for` from `T sum = {}`
  (main.cpp:160-165); `mainV2.cpp` uses `std::accumulate` from the literal `0`
  (mainV2.cpp:297-299). For `int` both start from 0.
- `mainV1.cpp` has no trace overrides, only the default trace
  (mainV1.cpp:78-84).
- `main.cpp` declares only the non-`const` `operator()`; `mainV1.cpp` and
  `mainV2.cpp` also declare a `const` overload with the same body. Both
  overloads are the one slot function, read by `Get` and written by `Set`.
- `main.cpp` keeps `data` in each subclass (main.cpp:75, 93, 141), while the
  other versions keep it in the base class (mainV2.cpp:62). The model keeps
  it in each class.

`Matrices.Matrix.Height` and `Matrices.Matrix.Width` are `getHeight()` and
`getWidth()` (mainV2.cpp:97-103); the `add` overloads compare the operands'
sizes through them.

## Model

| member | source | states |
|---|---|---|
| Layout.DenseIndex | mainV2.cpp:111-120 | the column-major position `row + col*height` of an in-range cell lies below `height*width`, the size of the vector the constructor allocates |
| Layout.DenseSlot | mainV2.cpp:115-127 | the dense accessor yields a storage cell exactly when `row < height` and `col < width`, and `out_of_range` otherwise |
| Layout.DenseCoordinates | mainV2.cpp:111-120 | every position of the dense vector is the position of some in-range cell (the map is onto) |
| Layout.DenseIndexRoundTrip | mainV1.cpp:92-108 | decoding the position of a cell gives the cell back, so the column-major map is a bijection between the cells and `[0, height*width)` |
| Layout.DenseSlotShares | main.cpp:78-87 | two in-range dense cells share storage if and only if they are the same cell |
| Layout.TriangularSize | mainV2.cpp:174-181 | the packed size the constructor allocates, in both of its branches, is the number of cells with `row <= col` inside the matrix |
| Layout.TriangularSizeClosedForm | mainV1.cpp:117-124 | when `height < width`, the packed size `w(w+1)/2 - d(d+1)/2` with `d = w - h` equals `h*w - h(h-1)/2` |
| Layout.TriangularOffset | mainV2.cpp:183-192 | the offset `col + row*width - row(row+1)/2` of a cell with `row <= col` counts the packed cells of the rows above plus `col - row`, and lies below the packed size |
| Layout.TriangularSlot | main.cpp:106-115 | the triangular accessor throws out of range exactly outside the matrix, hands out the shared `valInf` below the diagonal and the packed cell otherwise |
| Layout.TriangularOffsetInjective | mainV1.cpp:126-146 | distinct cells on or above the diagonal have distinct packed offsets |
| Layout.TriangularSlotShares | mainV1.cpp:126-135 | two in-range triangular cells get the same reference if and only if they are the same cell or both lie below the diagonal |
| Layout.RowStartMonotone | mainV2.cpp:174-192 | the packed start of a row never decreases with the row, which keeps the rows' packed ranges apart |
| Layout.TraceStride | main.cpp:117-123 | the stride walk `j += width - i` of the triangular trace, started at 0, stands on the packed offset of diagonal cell `(i, i)` at step `i` |
| Layout.DiagonalSlot | mainV2.cpp:270-283 | the diagonal accessor throws out of range exactly outside the matrix, hands out the shared `defaultVal` off the diagonal and `data[row]`, with `row < min(h, w)`, on it |
| Layout.DiagonalSlotShares | mainV1.cpp:159-179 | two in-range diagonal cells get the same reference if and only if they are the same cell or both lie off the diagonal |
| Matrices.Dense.constructor | mainV2.cpp:111-113 | a new dense matrix holds `height*width` zeros |
| Matrices.Dense.Copy | mainV2.cpp:140 | the implicit copy constructor copies the size and every element |
| Matrices.Dense.Get | mainV2.cpp:122-127 | reading a cell succeeds if and only if it is in range, fails with `out_of_range` otherwise, and reads the column-major element |
| Matrices.Dense.Set | mainV2.cpp:115-120 | writing through the reference changes exactly the one cell written and no other, or throws `out_of_range` and changes nothing |
| Matrices.UpperTriangular.constructor | mainV1.cpp:117-124 | a new triangular matrix holds a zeroed packed vector of the packed size and the given `valInf` |
| Matrices.UpperTriangular.Copy | mainV2.cpp:242 | the implicit copy constructor copies the size, the packed vector and `valInf` |
| Matrices.UpperTriangular.Get | mainV2.cpp:194-203 | an in-range read gives `valInf` below the diagonal and the packed element otherwise; out of range it fails |
| Matrices.UpperTriangular.Set | mainV1.cpp:126-135 | a write below the diagonal changes `valInf` and so every cell below the diagonal; any other in-range write changes exactly one cell; out of range nothing changes |
| Matrices.UpperTriangular.Trace | mainV2.cpp:205-211 | the stride-walking trace override equals the default trace, the sum of the `min(h, w)` diagonal cells |
| Matrices.Diagonal.constructor | main.cpp:145-147 | a new diagonal matrix holds `min(h, w)` zeros and the given `defaultVal` |
| Matrices.Diagonal.Copy | mainV2.cpp:337 | the implicit copy constructor copies the size, the diagonal vector and `defaultVal` |
| Matrices.Diagonal.Get | mainV2.cpp:285-294 | an in-range read gives `defaultVal` off the diagonal and `data[row]` on it; out of range it fails |
| Matrices.Diagonal.GetDefaultVal | mainV2.cpp:344-346 | the value returned is what every off-diagonal cell reads |
| Matrices.Diagonal.Set | mainV1.cpp:159-168 | a write off the diagonal changes `defaultVal` and so every off-diagonal cell; a write on it changes exactly one cell; out of range nothing changes |
| Matrices.Diagonal.Trace | mainV2.cpp:297-299 | summing the whole diagonal vector from 0 equals the default trace |
| Matrices.Matrix.Get | mainV2.cpp:67-69 | the virtual accessor succeeds exactly inside the matrix, whatever the kind |
| Matrices.DefaultTrace | mainV2.cpp:79-85 | the default trace is the sum of `(*this)(i, i)` for `i < min(h, w)`, starting from 0 |
| Matrices.Dense.AddDense | mainV2.cpp:137-145 | dense + dense fails with the size error when the sizes differ, and otherwise yields a fresh dense matrix holding the element-wise sum |
| Matrices.Dense.AddTriangular | mainV2.cpp:147-155 | dense + triangular: size error, or a fresh dense element-wise sum |
| Matrices.Dense.AddDiagonal | mainV2.cpp:157-165 | dense + diagonal: size error, or a fresh dense element-wise sum |
| Matrices.Dense.AddAny | mainV2.cpp:133-135 | the second dispatch on a dense matrix: size error, or a fresh element-wise sum of the kind the result-kind table gives |
| Matrices.UpperTriangular.AddDense | mainV2.cpp:233-237 | triangular + dense: size error, or a fresh dense element-wise sum |
| Matrices.UpperTriangular.AddTriangular | mainV2.cpp:239-249 | triangular + triangular: size error, or a fresh triangular matrix holding the element-wise sum, `valInf` included |
| Matrices.UpperTriangular.AddDiagonal | mainV2.cpp:251-261 | triangular + diagonal as written: size error, or a fresh triangular matrix that holds the sum on and above the diagonal and twice the diagonal operand's value below it |
| Matrices.UpperTriangular.AddDiagonalCorrected | mainV2.cpp:251-261 | triangular + diagonal with the evident intent (`valInf` of the result is the sum of both fills): size error, or a fresh triangular matrix holding the element-wise sum |
| Matrices.UpperTriangular.FillWithSum | mainV2.cpp:255-258 | the nested loop of triangular + diagonal writes the sum into every cell with `row <= col` and leaves `valInf` alone |
| Matrices.UpperTriangular.AddAny | mainV2.cpp:229-231 | the second dispatch on a triangular matrix: size error, or a fresh matrix of the kind the table gives; the element-wise sum for a dense or triangular operand, the triangular + diagonal result as written for a diagonal one |
| Matrices.Diagonal.AddDense | mainV2.cpp:322-326 | diagonal + dense: size error, or a fresh dense element-wise sum |
| Matrices.Diagonal.AddTriangular | mainV2.cpp:328-332 | diagonal + triangular: size error, or the fresh triangular result of the triangular + diagonal overload as written (the sum on and above the diagonal, twice `defaultVal` below it) |
| Matrices.Diagonal.AddDiagonal | mainV2.cpp:334-342 | diagonal + diagonal: size error, or a fresh diagonal matrix holding the element-wise sum, `defaultVal` included |
| Matrices.Diagonal.AddAny | mainV2.cpp:318-320 | the second dispatch on a diagonal matrix: size error, or a fresh matrix of the kind the table gives; the element-wise sum for a dense or diagonal operand, the triangular + diagonal result as written for a triangular one |
| Matrices.ResultKind | mainV2.cpp:87-95 | the result kind is dense if and only if an operand is dense, and diagonal if and only if both operands are diagonal; otherwise triangular |
| Matrices.IsSumCommutes | mainV2.cpp:233-237 | the element-wise sum is symmetric, so delegating `a + b` to `b + a` gives the same values |
| Matrices.Add | mainV2.cpp:129-131 | `add(m1, m2)`: fails with the size error if and only if the sizes differ; otherwise a fresh matrix of the kind the table gives; every cell is `m1(i, j) + m2(i, j)` unless one operand is triangular and the other diagonal, where the result is the triangular + diagonal overload's as written; the operands are not modified |
| Matrices.AddCorrected | mainV2.cpp:129-131 | `add(m1, m2)` with the triangular + diagonal overload corrected: size error if and only if the sizes differ, otherwise a fresh matrix of the kind the table gives holding the element-wise sum for every pair of kinds |
| Matrices.AsWrittenTriangularDiagonalIsNotSum | mainV2.cpp:254-259 | the triangular + diagonal result as written is not the element-wise sum once there is a cell below the diagonal and `valInf` differs from `defaultVal` |
| Matrices.AsWrittenTriangularDiagonalSumWhenFillsAgree | mainV2.cpp:254-259 | it is the sum when `valInf` equals `defaultVal`, as for the all-zero fills of the driver |
| OperatorPlus.Plus | main.cpp:181-188 | the result is a fresh dense `max(h) x max(w)` matrix; it throws `out_of_range` if and only if the sizes differ and the result is not empty; with equal sizes every cell is `m1(i, j) + this(i, j)` |
| OperatorPlus.SumRow | main.cpp:185-186 | one row of the nested loop either writes the sum into every cell of row `i` or throws `out_of_range` from an operand, and touches no other row |
| Demo.TriangularExample | main.cpp:192-198 | the driver's writes land where they are read back, and the unwritten diagonal cell stays 0 |
| Demo.TriangularTraceDemo | main.cpp:202 | the driver's triangular trace is 36 |
| Demo.DiagonalExample | main.cpp:204-209 | the driver's diagonal matrix holds 10, 11, 13, 13 on its diagonal |
| Demo.DiagonalTraceDemo | main.cpp:213 | the driver's diagonal trace is 47 |
| Demo.PlusDemo | main.cpp:215 | `m_triang + m_diag` reads 20 at (0, 0), 12 at (0, 1), 2 at (1, 0) and 13 at (3, 3) |
| Demo.SharedFillDemo | mainV1.cpp:159-183 | writing 99 at one off-diagonal cell makes another off-diagonal cell, and `getDefaultVal`, read 99 |
| Demo.TriangularPlusDiagonalCounterexample | mainV2.cpp:251-261 | `add` of a 2x2 triangular matrix filled with 0 and a 2x2 diagonal matrix filled with 1, in either order, reads 2 at (1, 0) where the sum is 1 |

## Left out

- `print()` in every class: it only writes `(*this)(i, j)` or the fill
  scalar to `std::cout`, which is terminal output.
- `testPerformance`, its `std::chrono` timing and the floating-point
  `std::pow` call: benchmarking, not matrix logic.
- The `main` drivers themselves: only their concrete matrices and the values
  they print (traces, the sum `m_triang + m_diag`) are modelled, in `Demo`.
- Ownership: `std::unique_ptr` / `std::make_unique`, and the object that
  `operator+` allocates with `new` and never frees. Results are fresh
  objects.
- Machine integers: dimensions are `nat`, elements are unbounded `int`. The
  conversion of negative `int` arguments to `size_t`, `std::abs` on signed
  differences and `size_t`/`int` overflow are not modelled.
- The element type is `int`, the only instantiation of the templates.
- The copy of the matrix into the `unique_ptr` at the end of each `add` is
  not modelled: the result is the fresh matrix that was filled.
- `Demo.TriangularExample` is stated for every square size from 4 on, of
  which the driver's 4x4 matrix is one.

## Findings

| source | as written | input that shows it | evidently intended | confidence | as-written member | corrected member |
|---|---|---|---|---|---|---|
| mainV2.cpp:251-261 | the triangular + diagonal `add` creates the result with the diagonal's `defaultVal` as its `valInf` and then adds `m1.getDefaultVal()` once more, so every cell below the diagonal reads twice `defaultVal` and the triangular operand's `valInf` is lost | a 2x2 triangular matrix with `valInf` 0 plus a 2x2 diagonal matrix with `defaultVal` 1: the result reads 2 at (1, 0), the sum is 0 + 1 = 1 (the driver uses 0 for both fills, where the two agree) | `result.valInf += this->valInf`, as in the triangular + triangular `add`, so that every cell is the sum | not executed | Matrices.UpperTriangular.AddDiagonal | Matrices.UpperTriangular.AddDiagonalCorrected |

The lemma `Matrices.AsWrittenTriangularDiagonalIsNotSum` and the method
`Demo.TriangularPlusDiagonalCounterexample` show the wrong cell. `Matrices.Add`
dispatches as the source does: both orders of a triangular and a diagonal
operand reach `Matrices.UpperTriangular.AddDiagonal`. The corrected overload
`Matrices.UpperTriangular.AddDiagonalCorrected` is proved to give the
element-wise sum, and `Matrices.AddCorrected`, which uses it for that pair,
promises the sum for every pair of kinds.
