/**
  The storage layouts of the three matrix kinds: how a logical (row, col)
  coordinate is mapped to the storage location that `operator()(row, col)`
  hands out a reference to. This part of the library is pure integer
  arithmetic; the classes in module Matrices read and write through it.
*/
module Layout {
  import opened Errors

  /** The location a reference returned by `operator()` designates: an element
      of the storage vector `data`, or the one scalar (`valInf` of a triangular
      matrix, `defaultVal` of a diagonal one) shared by every cell outside the
      stored region. */
  datatype Slot = Cell(index: nat) | Shared

  function Min(a: nat, b: nat): nat { if a < b then a else b }

  function Max(a: nat, b: nat): nat { if a < b then b else a }

  /** 0 + 1 + ... + n, the reference definition of n(n+1)/2. */
  function Triangle(n: nat): nat { if n == 0 then 0 else Triangle(n - 1) + n }

  lemma {:induction false} TriangleClosedForm(n: nat)
    ensures 2 * Triangle(n) == n * (n + 1)
    ensures n * (n + 1) / 2 == Triangle(n)
  {
    if n > 0 {
      TriangleClosedForm(n - 1);
      assert n * (n + 1) == (n - 1) * n + 2 * n;
    }
  }

  lemma {:induction false} MulAtLeast(x: int, d: nat)
    requires x >= 1
    ensures x * d >= d
  {
    if x > 1 {
      MulAtLeast(x - 1, d);
      assert x * d == (x - 1) * d + d;
    }
  }

  lemma DivModUnique(k: int, d: int, q: int, m: int)
    requires d > 0 && 0 <= m < d && k == q * d + m
    ensures k / d == q && k % d == m
  {
    var q', m' := k / d, k % d;
    assert k == q' * d + m';
    if q' < q {
      assert (q - q') * d == q * d - q' * d;
      MulAtLeast(q - q', d);
      assert false;
    } else if q < q' {
      assert (q' - q) * d == q' * d - q * d;
      MulAtLeast(q' - q, d);
      assert false;
    }
  }

  // ---------------------------------------------------------------- dense

  /** Column-major position of an in-range cell of a dense `h` x `w` matrix. */
  function DenseIndex(h: nat, w: nat, row: nat, col: nat): (k: nat)
    requires row < h && col < w
    ensures k < h * w
  {
    assert col * h <= (w - 1) * h;
    row + col * h
  }

  /** The location the dense `operator()` refers to, or the exception it throws. */
  function DenseSlot(h: nat, w: nat, row: nat, col: nat): (s: Result<Slot>)
    ensures s.Success? <==> row < h && col < w
    ensures s.Failure? ==> s.error == OutOfRange
    ensures s.Success? ==> s == Success(Cell(DenseIndex(h, w, row, col)))
  {
    if row < h && col < w then Success(Cell(DenseIndex(h, w, row, col))) else Failure(OutOfRange)
  }

  /** The cell stored at position `k` of a dense vector: the inverse of DenseIndex. */
  function DenseCoordinates(h: nat, w: nat, k: nat): (rc: (nat, nat))
    requires k < h * w
    ensures rc.0 < h && rc.1 < w && DenseIndex(h, w, rc.0, rc.1) == k
  {
    assert h > 0;
    QuotientBelow(k, h, w);
    DivModUnique(k, h, k / h, k % h);
    (k % h, k / h)
  }

  lemma QuotientBelow(k: nat, h: nat, w: nat)
    requires h > 0 && k < h * w
    ensures k / h < w
  {
    var q := k / h;
    assert k == q * h + k % h;
    if q >= w {
      assert false;
    }
  }

  /** Every in-range cell gets a vector position of its own: DenseIndex is
      undone by DenseCoordinates, so together they are a bijection between
      [0, h) x [0, w) and [0, h*w), the size of the vector the ctor allocates. */
  lemma DenseIndexRoundTrip(h: nat, w: nat, row: nat, col: nat)
    requires row < h && col < w
    ensures DenseCoordinates(h, w, DenseIndex(h, w, row, col)) == (row, col)
  {
    DivModUnique(DenseIndex(h, w, row, col), h, col, row);
  }

  /** Two in-range dense cells share storage exactly when they are the same cell. */
  lemma DenseSlotShares(h: nat, w: nat, r1: nat, c1: nat, r2: nat, c2: nat)
    requires r1 < h && c1 < w && r2 < h && c2 < w
    ensures DenseSlot(h, w, r1, c1) == DenseSlot(h, w, r2, c2) <==> r1 == r2 && c1 == c2
  {
    if DenseSlot(h, w, r1, c1) == DenseSlot(h, w, r2, c2) {
      DenseIndexRoundTrip(h, w, r1, c1);
      DenseIndexRoundTrip(h, w, r2, c2);
    }
  }

  // ----------------------------------------------------- upper triangular

  /** Number of packed cells in the rows above `r` of a triangular matrix of
      width `w`: row k keeps its cells k..w-1, that is w - k of them. */
  function RowStart(w: nat, r: nat): int
  {
    if r == 0 then 0 else RowStart(w, r - 1) + (w - (r - 1))
  }

  lemma {:induction false} RowStartClosedForm(w: nat, r: nat)
    ensures RowStart(w, r) + Triangle(r) == r * w + r
  {
    if r > 0 {
      RowStartClosedForm(w, r - 1);
      assert (r - 1) * w + w == r * w;
    }
  }

  lemma {:induction false} RowStartMonotone(w: nat, a: nat, b: nat)
    requires a <= b <= w
    ensures 0 <= RowStart(w, a) <= RowStart(w, b)
    decreases b
  {
    if b == 0 {
    } else if a < b {
      RowStartMonotone(w, a, b - 1);
    } else {
      RowStartMonotone(w, a - 1, b - 1);
    }
  }

  /** Size of the packed vector that the triangular ctor allocates: w(w+1)/2
      when h >= w, otherwise w(w+1)/2 minus the d(d+1)/2 cells, d = w - h, of
      the rows that do not exist. It is exactly the number of cells with
      row <= col inside the matrix. */
  function TriangularSize(h: nat, w: nat): (n: nat)
    ensures n == RowStart(w, Min(h, w))
  {
    TriangularSizeCounts(h, w);
    if h >= w then
      w * (w + 1) / 2
    else
      (w * (w + 1) / 2) - ((w - h) * ((w - h) + 1) / 2)
  }

  lemma TriangularSizeCounts(h: nat, w: nat)
    ensures RowStart(w, Min(h, w)) ==
      if h >= w then w * (w + 1) / 2 else (w * (w + 1) / 2) - ((w - h) * ((w - h) + 1) / 2)
    ensures RowStart(w, Min(h, w)) >= 0
  {
    RowStartMonotone(w, 0, Min(h, w));
    if h >= w {
      PackedSizeSquare(w);
    } else {
      PackedSizeWide(h, w);
    }
  }

  lemma PackedSizeSquare(w: nat)
    ensures RowStart(w, w) == w * (w + 1) / 2
  {
    TriangleClosedForm(w);
    RowStartClosedForm(w, w);
    assert w * (w + 1) == w * w + w;
  }

  lemma PackedSizeWide(h: nat, w: nat)
    requires h < w
    ensures RowStart(w, h) == (w * (w + 1) / 2) - ((w - h) * ((w - h) + 1) / 2)
  {
    var d := w - h;
    TriangleClosedForm(w);
    TriangleClosedForm(d);
    TriangleClosedForm(h);
    RowStartClosedForm(w, h);
    assert h + d == w;
    TriangleSplit(h, d);
    assert Triangle(w) - Triangle(d) == Triangle(h) + h * d;
    assert h * (h + 1) + h * d == h * (w + 1) by {
      assert h * (h + 1) + h * d == h * (h + 1 + d);
    }
    assert h * (w + 1) == h * w + h;
  }

  lemma {:induction false} TriangleSplit(h: nat, d: nat)
    ensures Triangle(h + d) == Triangle(h) + h * d + Triangle(d)
    decreases h
  {
    if h > 0 {
      TriangleSplit(h - 1, d);
      assert (h - 1) * d + d == h * d;
    }
  }

  /** When the matrix is wider than tall, the packed size is h*w - h(h-1)/2. */
  lemma TriangularSizeClosedForm(h: nat, w: nat)
    requires h < w
    ensures TriangularSize(h, w) == h * w - h * (h - 1) / 2
  {
    RowStartClosedForm(w, h);
    if h > 0 {
      TriangleClosedForm(h - 1);
      assert Triangle(h) == Triangle(h - 1) + h;
    }
  }

  /** The packed row-major offset `col + row*w - row(row+1)/2` of a cell on or
      above the diagonal: the packed cells of the rows above, then col - row. */
  function TriangularOffset(h: nat, w: nat, row: nat, col: nat): (k: nat)
    requires row <= col < w && row < h
    ensures k == RowStart(w, row) + (col - row)
    ensures k < TriangularSize(h, w)
  {
    RowStartClosedForm(w, row);
    TriangleClosedForm(row);
    RowStartMonotone(w, 0, row);
    RowStartMonotone(w, row + 1, Min(h, w));
    col + row * w - (row * (row + 1)) / 2
  }

  /** Cells of one triangular matrix that share storage: the same cell, or
      two cells below the diagonal (both are the scalar valInf). */
  predicate TriangularShares(r1: nat, c1: nat, r2: nat, c2: nat)
  {
    (r1 == r2 && c1 == c2) || (r1 > c1 && r2 > c2)
  }

  /** The location the triangular `operator()` refers to, or the exception it throws. */
  function TriangularSlot(h: nat, w: nat, row: nat, col: nat): (s: Result<Slot>)
    ensures s.Success? <==> row < h && col < w
    ensures s.Failure? ==> s.error == OutOfRange
    ensures s.Success? && row > col ==> s.value == Shared
    ensures s.Success? && row <= col ==> s.value == Cell(TriangularOffset(h, w, row, col))
  {
    if row < h && col < w then
      if row > col then Success(Shared) else Success(Cell(TriangularOffset(h, w, row, col)))
    else
      Failure(OutOfRange)
  }

  /** Distinct cells on or above the diagonal have distinct packed offsets. */
  lemma TriangularOffsetInjective(h: nat, w: nat, r1: nat, c1: nat, r2: nat, c2: nat)
    requires r1 <= c1 < w && r1 < h && r2 <= c2 < w && r2 < h
    requires TriangularOffset(h, w, r1, c1) == TriangularOffset(h, w, r2, c2)
    ensures r1 == r2 && c1 == c2
  {
    if r1 < r2 {
      RowStartMonotone(w, r1 + 1, r2);
    } else if r2 < r1 {
      RowStartMonotone(w, r2 + 1, r1);
    }
  }

  /** Two in-range triangular cells get the same reference exactly when
      TriangularShares says so. */
  lemma TriangularSlotShares(h: nat, w: nat, r1: nat, c1: nat, r2: nat, c2: nat)
    requires r1 < h && c1 < w && r2 < h && c2 < w
    ensures TriangularSlot(h, w, r1, c1) == TriangularSlot(h, w, r2, c2) <==> TriangularShares(r1, c1, r2, c2)
  {
    if r1 <= c1 && r2 <= c2 && TriangularSlot(h, w, r1, c1) == TriangularSlot(h, w, r2, c2) {
      TriangularOffsetInjective(h, w, r1, c1, r2, c2);
    }
  }

  /** The triangular trace walks the packed vector with `j += w - i`: starting
      from 0, after i steps it stands on the offset of diagonal cell (i, i). */
  lemma TraceStride(h: nat, w: nat, i: nat)
    requires i + 1 < h && i + 1 < w
    ensures TriangularOffset(h, w, 0, 0) == 0
    ensures TriangularOffset(h, w, i + 1, i + 1) == TriangularOffset(h, w, i, i) + (w - i)
  {
  }

  // ------------------------------------------------------------- diagonal

  /** Cells of one diagonal matrix that share storage: the same cell, or two
      cells off the diagonal (both are the scalar defaultVal). */
  predicate DiagonalShares(r1: nat, c1: nat, r2: nat, c2: nat)
  {
    (r1 == r2 && c1 == c2) || (r1 != c1 && r2 != c2)
  }

  /** The location the diagonal `operator()` refers to, or the exception it throws. */
  function DiagonalSlot(h: nat, w: nat, row: nat, col: nat): (s: Result<Slot>)
    ensures s.Success? <==> row < h && col < w
    ensures s.Failure? ==> s.error == OutOfRange
    ensures s.Success? && row != col ==> s.value == Shared
    ensures s.Success? && row == col ==> s.value == Cell(row) && row < Min(h, w)
  {
    if row < h && col < w then
      if row != col then Success(Shared) else Success(Cell(row))
    else
      Failure(OutOfRange)
  }

  /** Two in-range diagonal cells get the same reference exactly when
      DiagonalShares says so. */
  lemma DiagonalSlotShares(h: nat, w: nat, r1: nat, c1: nat, r2: nat, c2: nat)
    requires r1 < h && c1 < w && r2 < h && c2 < w
    ensures DiagonalSlot(h, w, r1, c1) == DiagonalSlot(h, w, r2, c2) <==> DiagonalShares(r1, c1, r2, c2)
  {
  }
}
