/**
  The matrix hierarchy: a dense matrix, an upper-triangular matrix and a
  diagonal matrix of `int`, all offering element access through
  `operator()(row, col)`, a trace, and a double-dispatching `add`.

  C++ `operator()` returns a mutable reference. Here each class reads through
  that reference with `Get` and writes through it with `Set`; both go through
  the slot functions of module Layout, so cells that share a reference (the
  below-diagonal cells of a triangular matrix, the off-diagonal cells of a
  diagonal one) are read and written together. The abstract base class is the
  datatype `Matrix`, one variant per concrete class, which dispatches on the
  runtime kind as the virtual calls do.
*/
module Matrices {
  import opened Errors
  import opened Layout

  // ================================================================ dense

  class Dense {
    const height: nat
    const width: nat
    var data: seq<int>

    ghost predicate Valid()
      reads this
    {
      |data| == height * width
    }

    /** `matrix_dense(h, w)`: a value-initialised (all zero) vector of h*w elements. */
    constructor (height: nat, width: nat)
      ensures Valid() && this.height == height && this.width == width
      ensures data == seq(height * width, _ => 0)
    {
      this.height, this.width := height, width;
      data := seq(height * width, _ => 0);
    }

    /** The implicit copy constructor. */
    constructor Copy(m: Dense)
      requires m.Valid()
      ensures Valid() && height == m.height && width == m.width && data == m.data
    {
      height, width := m.height, m.width;
      data := m.data;
    }

    /** Read through the reference `operator()(row, col)` returns. */
    function Get(row: nat, col: nat): (g: Result<int>)
      reads this
      requires Valid()
      ensures g.Success? <==> row < height && col < width
      ensures g.Failure? ==> g.error == OutOfRange
      ensures g.Success? ==> g.value == data[DenseIndex(height, width, row, col)]
    {
      match DenseSlot(height, width, row, col)
      case Failure(e) => Failure(e)
      case Success(s) => Success(data[s.index])
    }

    /** Write `v` through the reference `operator()(row, col)` returns. */
    method Set(row: nat, col: nat, v: int) returns (o: Outcome)
      requires Valid()
      modifies this
      ensures Valid()
      ensures o.Fail? <==> !(row < height && col < width)
      ensures o.Fail? ==> o.error == OutOfRange && data == old(data)
      ensures o.Done? ==> data == old(data)[DenseIndex(height, width, row, col) := v]
      ensures o.Done? ==> forall r: nat, c: nat | r < height && c < width ::
        Get(r, c) == if r == row && c == col then Success(v) else old(Get(r, c))
    {
      match DenseSlot(height, width, row, col)
      case Failure(e) =>
        o := Fail(e);
      case Success(s) =>
        data := data[s.index := v];
        o := Done;
        forall r: nat, c: nat | r < height && c < width
          ensures Get(r, c) == if r == row && c == col then Success(v) else old(Get(r, c))
        {
          DenseSlotShares(height, width, r, c, row, col);
        }
    }

    /** `add(const matrix_dense&)`: start from a copy of m1, then every cell
        accumulates this matrix's cell. */
    method AddDense(m1: Dense) returns (r: Result<Matrix>)
      requires Valid() && m1.Valid()
      ensures r.Failure? <==> m1.height != height || m1.width != width
      ensures r.Failure? ==> r.error == SizeMismatch
      ensures r.Success? ==> r.value.DenseM? && fresh(r.value.Obj())
      ensures r.Success? ==> IsSum(r.value, DenseM(m1), DenseM(this))
    {
      if m1.height != height || m1.width != width {
        return Failure(SizeMismatch);
      }
      var result := new Dense.Copy(m1);
      for i := 0 to m1.height
        invariant result.Valid() && result.height == height && result.width == width
        invariant forall r: nat, c: nat | r < height && c < width ::
          result.Get(r, c).value == m1.Get(r, c).value + (if r < i then Get(r, c).value else 0)
      {
        for j := 0 to m1.width
          invariant result.Valid() && result.height == height && result.width == width
          invariant forall r: nat, c: nat | r < height && c < width ::
            result.Get(r, c).value == m1.Get(r, c).value + (if r < i || (r == i && c < j) then Get(r, c).value else 0)
        {
          var done := result.Set(i, j, result.Get(i, j).value + Get(i, j).value);
        }
      }
      r := Success(DenseM(result));
    }

    /** `add(const matrix_triangulaire_sup&)`: a fresh dense matrix whose every
        cell is assigned this matrix's cell plus m1's. */
    method AddTriangular(m1: UpperTriangular) returns (r: Result<Matrix>)
      requires Valid() && m1.Valid()
      ensures r.Failure? <==> m1.height != height || m1.width != width
      ensures r.Failure? ==> r.error == SizeMismatch
      ensures r.Success? ==> r.value.DenseM? && fresh(r.value.Obj())
      ensures r.Success? ==> IsSum(r.value, DenseM(this), TriangularM(m1))
    {
      if m1.height != height || m1.width != width {
        return Failure(SizeMismatch);
      }
      var result := new Dense(height, width);
      for i := 0 to height
        invariant result.Valid() && result.height == height && result.width == width
        invariant forall r: nat, c: nat | r < height && c < width ::
          result.Get(r, c).value == if r < i then Get(r, c).value + m1.Get(r, c).value else 0
      {
        for j := 0 to width
          invariant result.Valid() && result.height == height && result.width == width
          invariant forall r: nat, c: nat | r < height && c < width ::
            result.Get(r, c).value ==
              if r < i || (r == i && c < j) then Get(r, c).value + m1.Get(r, c).value else 0
        {
          var done := result.Set(i, j, Get(i, j).value + m1.Get(i, j).value);
        }
      }
      r := Success(DenseM(result));
    }

    /** `add(const matrix_diag&)`: as AddTriangular, with a diagonal operand. */
    method AddDiagonal(m1: Diagonal) returns (r: Result<Matrix>)
      requires Valid() && m1.Valid()
      ensures r.Failure? <==> m1.height != height || m1.width != width
      ensures r.Failure? ==> r.error == SizeMismatch
      ensures r.Success? ==> r.value.DenseM? && fresh(r.value.Obj())
      ensures r.Success? ==> IsSum(r.value, DenseM(this), DiagonalM(m1))
    {
      if m1.height != height || m1.width != width {
        return Failure(SizeMismatch);
      }
      var result := new Dense(height, width);
      for i := 0 to result.height
        invariant result.Valid() && result.height == height && result.width == width
        invariant forall r: nat, c: nat | r < height && c < width ::
          result.Get(r, c).value == if r < i then Get(r, c).value + m1.Get(r, c).value else 0
      {
        for j := 0 to width
          invariant result.Valid() && result.height == height && result.width == width
          invariant forall r: nat, c: nat | r < height && c < width ::
            result.Get(r, c).value ==
              if r < i || (r == i && c < j) then Get(r, c).value + m1.Get(r, c).value else 0
        {
          var done := result.Set(i, j, Get(i, j).value + m1.Get(i, j).value);
        }
      }
      r := Success(DenseM(result));
    }

    /** `add(const matrix_t_& m)`: re-dispatch on m's kind with this matrix
        as the statically known dense argument. */
    method AddAny(m: Matrix) returns (r: Result<Matrix>)
      requires Valid() && m.Valid()
      ensures r.Failure? <==> m.Height() != height || m.Width() != width
      ensures r.Failure? ==> r.error == SizeMismatch
      ensures r.Success? ==> fresh(r.value.Obj()) && r.value.KindOf() == ResultKind(DenseKind, m.KindOf())
      ensures r.Success? ==> IsSum(r.value, DenseM(this), m)
    {
      match m
      case DenseM(b) => r := b.AddDense(this);
      case TriangularM(b) => r := b.AddDense(this);
      case DiagonalM(b) => r := b.AddDense(this);
    }
  }

  // ===================================================== upper triangular

  class UpperTriangular {
    const height: nat
    const width: nat
    var data: seq<int>
    var valInf: int

    ghost predicate Valid()
      reads this
    {
      |data| == TriangularSize(height, width)
    }

    /** `matrix_triangulaire_sup(h, w, valInf)`: a zeroed packed vector of
        TriangularSize(h, w) elements and the below-diagonal scalar. */
    constructor (height: nat, width: nat, valInf: int)
      ensures Valid() && this.height == height && this.width == width
      ensures data == seq(TriangularSize(height, width), _ => 0) && this.valInf == valInf
    {
      this.height, this.width, this.valInf := height, width, valInf;
      data := seq(TriangularSize(height, width), _ => 0);
    }

    /** The implicit copy constructor. */
    constructor Copy(m: UpperTriangular)
      requires m.Valid()
      ensures Valid() && height == m.height && width == m.width
      ensures data == m.data && valInf == m.valInf
    {
      height, width := m.height, m.width;
      data, valInf := m.data, m.valInf;
    }

    /** Read through the reference `operator()(row, col)` returns. */
    function Get(row: nat, col: nat): (g: Result<int>)
      reads this
      requires Valid()
      ensures g.Success? <==> row < height && col < width
      ensures g.Failure? ==> g.error == OutOfRange
      ensures g.Success? && row > col ==> g.value == valInf
      ensures g.Success? && row <= col ==> g.value == data[TriangularOffset(height, width, row, col)]
    {
      match TriangularSlot(height, width, row, col)
      case Failure(e) => Failure(e)
      case Success(Shared) => Success(valInf)
      case Success(Cell(k)) => Success(data[k])
    }

    /** Write `v` through the reference `operator()(row, col)` returns: a
        write below the diagonal lands in valInf and so changes every
        below-diagonal cell; any other write changes exactly one cell. */
    method Set(row: nat, col: nat, v: int) returns (o: Outcome)
      requires Valid()
      modifies this
      ensures Valid()
      ensures o.Fail? <==> !(row < height && col < width)
      ensures o.Fail? ==> o.error == OutOfRange && data == old(data) && valInf == old(valInf)
      ensures o.Done? && row > col ==> valInf == v && data == old(data)
      ensures o.Done? && row <= col ==>
        valInf == old(valInf) && data == old(data)[TriangularOffset(height, width, row, col) := v]
      ensures o.Done? ==> forall r: nat, c: nat | r < height && c < width ::
        Get(r, c) == if TriangularShares(r, c, row, col) then Success(v) else old(Get(r, c))
    {
      match TriangularSlot(height, width, row, col)
      case Failure(e) =>
        o := Fail(e);
      case Success(Shared) =>
        valInf := v;
        o := Done;
        forall r: nat, c: nat | r < height && c < width
          ensures Get(r, c) == if TriangularShares(r, c, row, col) then Success(v) else old(Get(r, c))
        {
          TriangularSlotShares(height, width, r, c, row, col);
        }
      case Success(Cell(k)) =>
        data := data[k := v];
        o := Done;
        forall r: nat, c: nat | r < height && c < width
          ensures Get(r, c) == if TriangularShares(r, c, row, col) then Success(v) else old(Get(r, c))
        {
          TriangularSlotShares(height, width, r, c, row, col);
        }
    }

    /** The trace override: walk the packed vector with stride `w - i`, which
        lands on each diagonal cell in turn; equals the default trace. */
    method Trace() returns (sum: int)
      requires Valid()
      ensures sum == DiagonalSum(TriangularM(this), Min(height, width))
    {
      sum := 0;
      var i, j := 0, 0;
      while i < Min(height, width)
        invariant i <= Min(height, width)
        invariant i < Min(height, width) ==> j == TriangularOffset(height, width, i, i)
        invariant sum == DiagonalSum(TriangularM(this), i)
      {
        sum := sum + data[j];
        if i + 1 < Min(height, width) {
          TraceStride(height, width, i);
        }
        j, i := j + (width - i), i + 1;
      }
    }

    /** `add(const matrix_dense&)`: check the sizes, then let the dense
        operand build the (dense) result. */
    method AddDense(m1: Dense) returns (r: Result<Matrix>)
      requires Valid() && m1.Valid()
      ensures r.Failure? <==> m1.height != height || m1.width != width
      ensures r.Failure? ==> r.error == SizeMismatch
      ensures r.Success? ==> r.value.DenseM? && fresh(r.value.Obj())
      ensures r.Success? ==> IsSum(r.value, DenseM(m1), TriangularM(this))
    {
      if m1.height != height || m1.width != width {
        return Failure(SizeMismatch);
      }
      r := m1.AddTriangular(this);
    }

    /** `add(const matrix_triangulaire_sup&)`: start from a copy of m1, add
        this matrix's cells on and above the diagonal, then add the two
        below-diagonal scalars. */
    method AddTriangular(m1: UpperTriangular) returns (r: Result<Matrix>)
      requires Valid() && m1.Valid()
      ensures r.Failure? <==> m1.height != height || m1.width != width
      ensures r.Failure? ==> r.error == SizeMismatch
      ensures r.Success? ==> r.value.TriangularM? && fresh(r.value.Obj())
      ensures r.Success? ==> IsSum(r.value, TriangularM(m1), TriangularM(this))
    {
      if m1.height != height || m1.width != width {
        return Failure(SizeMismatch);
      }
      var result := new UpperTriangular.Copy(m1);
      for i := 0 to m1.height
        invariant result.Valid() && result.height == height && result.width == width
        invariant result.valInf == m1.valInf
        invariant forall r: nat, c: nat | r < height && c < width && r <= c ::
          result.Get(r, c).value == m1.Get(r, c).value + (if r < i then Get(r, c).value else 0)
      {
        var j := i;
        while j < m1.width
          invariant i <= j
          invariant result.Valid() && result.height == height && result.width == width
          invariant result.valInf == m1.valInf
          invariant forall r: nat, c: nat | r < height && c < width && r <= c ::
            result.Get(r, c).value == m1.Get(r, c).value + (if r < i || (r == i && c < j) then Get(r, c).value else 0)
        {
          var done := result.Set(i, j, result.Get(i, j).value + Get(i, j).value);
          j := j + 1;
        }
      }
      result.valInf := result.valInf + valInf;
      r := Success(TriangularM(result));
    }

    /** `add(const matrix_diag&)` AS WRITTEN: the result is created with the
        diagonal's defaultVal as its valInf and then gets defaultVal added once
        more, so below the diagonal it holds twice the diagonal operand's
        value and this matrix's valInf is lost. On and above the diagonal
        every cell is the sum. */
    method AddDiagonal(m1: Diagonal) returns (r: Result<Matrix>)
      requires Valid() && m1.Valid()
      ensures r.Failure? <==> m1.height != height || m1.width != width
      ensures r.Failure? ==> r.error == SizeMismatch
      ensures r.Success? ==> r.value.TriangularM? && fresh(r.value.Obj())
      ensures r.Success? ==> AsWrittenTriangularDiagonalSum(r.value, DiagonalM(m1), TriangularM(this))
    {
      if m1.height != height || m1.width != width {
        return Failure(SizeMismatch);
      }
      var result := new UpperTriangular(height, width, m1.GetDefaultVal());
      FillWithSum(result, m1);
      result.valInf := result.valInf + m1.GetDefaultVal();
      r := Success(TriangularM(result));
    }

    /** `add(const matrix_diag&)` with the evident intent: the result's valInf
        is the diagonal's defaultVal plus this matrix's valInf, so every cell
        of the result is the sum. AddCorrected uses this version. */
    method AddDiagonalCorrected(m1: Diagonal) returns (r: Result<Matrix>)
      requires Valid() && m1.Valid()
      ensures r.Failure? <==> m1.height != height || m1.width != width
      ensures r.Failure? ==> r.error == SizeMismatch
      ensures r.Success? ==> r.value.TriangularM? && fresh(r.value.Obj())
      ensures r.Success? ==> IsSum(r.value, DiagonalM(m1), TriangularM(this))
    {
      if m1.height != height || m1.width != width {
        return Failure(SizeMismatch);
      }
      var result := new UpperTriangular(height, width, m1.GetDefaultVal());
      FillWithSum(result, m1);
      result.valInf := result.valInf + valInf;
      r := Success(TriangularM(result));
    }

    /** The loop shared by both versions of the triangular + diagonal add:
        `result(i, j) = m1(i, j) + (*this)(i, j)` for every j >= i. */
    method FillWithSum(result: UpperTriangular, m1: Diagonal)
      requires Valid() && m1.Valid() && result.Valid()
      requires result.height == height == m1.height && result.width == width == m1.width
      requires result != this
      modifies result
      ensures result.Valid() && result.valInf == old(result.valInf)
      ensures forall r: nat, c: nat | r < height && c < width && r <= c ::
        result.Get(r, c).value == m1.Get(r, c).value + Get(r, c).value
    {
      for i := 0 to height
        invariant result.Valid() && result.valInf == old(result.valInf)
        invariant forall r: nat, c: nat | r < height && c < width && r <= c && r < i ::
          result.Get(r, c).value == m1.Get(r, c).value + Get(r, c).value
      {
        var j := i;
        while j < width
          invariant i <= j
          invariant result.Valid() && result.valInf == old(result.valInf)
          invariant forall r: nat, c: nat | r < height && c < width && r <= c && (r < i || (r == i && c < j)) ::
            result.Get(r, c).value == m1.Get(r, c).value + Get(r, c).value
        {
          var done := result.Set(i, j, m1.Get(i, j).value + Get(i, j).value);
          j := j + 1;
        }
      }
    }

    /** `add(const matrix_t_& m)`: re-dispatch on m's kind with this matrix
        as the statically known triangular argument. */
    method AddAny(m: Matrix) returns (r: Result<Matrix>)
      requires Valid() && m.Valid()
      ensures r.Failure? <==> m.Height() != height || m.Width() != width
      ensures r.Failure? ==> r.error == SizeMismatch
      ensures r.Success? ==> fresh(r.value.Obj()) && r.value.KindOf() == ResultKind(TriangularKind, m.KindOf())
      ensures r.Success? && !m.DiagonalM? ==> IsSum(r.value, TriangularM(this), m)
      ensures r.Success? && m.DiagonalM? ==> AsWrittenTriangularDiagonalSum(r.value, m, TriangularM(this))
    {
      match m
      case DenseM(b) =>
        r := b.AddTriangular(this);
        if r.Success? { IsSumCommutes(r.value, m, TriangularM(this)); }
      case TriangularM(b) =>
        r := b.AddTriangular(this);
      case DiagonalM(b) =>
        r := b.AddTriangular(this);
    }
  }

  // ============================================================= diagonal

  class Diagonal {
    const height: nat
    const width: nat
    var data: seq<int>
    var defaultVal: int

    ghost predicate Valid()
      reads this
    {
      |data| == Min(height, width)
    }

    /** `matrix_diag(h, w, defaultVal)`: a zeroed vector of min(h, w) diagonal
        elements and the off-diagonal scalar. */
    constructor (height: nat, width: nat, defaultVal: int)
      ensures Valid() && this.height == height && this.width == width
      ensures data == seq(Min(height, width), _ => 0) && this.defaultVal == defaultVal
    {
      this.height, this.width, this.defaultVal := height, width, defaultVal;
      data := seq(Min(height, width), _ => 0);
    }

    /** The implicit copy constructor. */
    constructor Copy(m: Diagonal)
      requires m.Valid()
      ensures Valid() && height == m.height && width == m.width
      ensures data == m.data && defaultVal == m.defaultVal
    {
      height, width := m.height, m.width;
      data, defaultVal := m.data, m.defaultVal;
    }

    /** Read through the reference `operator()(row, col)` returns. */
    function Get(row: nat, col: nat): (g: Result<int>)
      reads this
      requires Valid()
      ensures g.Success? <==> row < height && col < width
      ensures g.Failure? ==> g.error == OutOfRange
      ensures g.Success? && row != col ==> g.value == defaultVal
      ensures g.Success? && row == col ==> g.value == data[row]
    {
      match DiagonalSlot(height, width, row, col)
      case Failure(e) => Failure(e)
      case Success(Shared) => Success(defaultVal)
      case Success(Cell(k)) => Success(data[k])
    }

    /** `getDefaultVal()`: the value every off-diagonal cell reads. */
    function GetDefaultVal(): (v: int)
      reads this
      requires Valid()
      ensures forall r: nat, c: nat | r < height && c < width && r != c :: Get(r, c) == Success(v)
    {
      defaultVal
    }

    /** Write `v` through the reference `operator()(row, col)` returns: a
        write off the diagonal lands in defaultVal and so changes every
        off-diagonal cell; a write on the diagonal changes exactly one cell. */
    method Set(row: nat, col: nat, v: int) returns (o: Outcome)
      requires Valid()
      modifies this
      ensures Valid()
      ensures o.Fail? <==> !(row < height && col < width)
      ensures o.Fail? ==> o.error == OutOfRange && data == old(data) && defaultVal == old(defaultVal)
      ensures o.Done? && row != col ==> defaultVal == v && data == old(data)
      ensures o.Done? && row == col ==> defaultVal == old(defaultVal) && data == old(data)[row := v]
      ensures o.Done? ==> forall r: nat, c: nat | r < height && c < width ::
        Get(r, c) == if DiagonalShares(r, c, row, col) then Success(v) else old(Get(r, c))
    {
      match DiagonalSlot(height, width, row, col)
      case Failure(e) =>
        o := Fail(e);
      case Success(Shared) =>
        defaultVal := v;
        o := Done;
      case Success(Cell(k)) =>
        data := data[k := v];
        o := Done;
    }

    /** The trace override: `std::accumulate` over the diagonal vector from 0;
        equals the default trace. */
    method Trace() returns (sum: int)
      requires Valid()
      ensures sum == DiagonalSum(DiagonalM(this), Min(height, width))
    {
      sum := 0;
      for k := 0 to |data|
        invariant sum == DiagonalSum(DiagonalM(this), k)
      {
        sum := sum + data[k];
      }
    }

    /** `add(const matrix_dense&)`: check the sizes, then let the dense
        operand build the (dense) result. */
    method AddDense(m1: Dense) returns (r: Result<Matrix>)
      requires Valid() && m1.Valid()
      ensures r.Failure? <==> m1.height != height || m1.width != width
      ensures r.Failure? ==> r.error == SizeMismatch
      ensures r.Success? ==> r.value.DenseM? && fresh(r.value.Obj())
      ensures r.Success? ==> IsSum(r.value, DenseM(m1), DiagonalM(this))
    {
      if m1.height != height || m1.width != width {
        return Failure(SizeMismatch);
      }
      r := m1.AddDiagonal(this);
    }

    /** `add(const matrix_triangulaire_sup&)`: check the sizes, then let the
        triangular operand build the (triangular) result. */
    method AddTriangular(m1: UpperTriangular) returns (r: Result<Matrix>)
      requires Valid() && m1.Valid()
      ensures r.Failure? <==> m1.height != height || m1.width != width
      ensures r.Failure? ==> r.error == SizeMismatch
      ensures r.Success? ==> r.value.TriangularM? && fresh(r.value.Obj())
      ensures r.Success? ==> AsWrittenTriangularDiagonalSum(r.value, DiagonalM(this), TriangularM(m1))
    {
      if m1.height != height || m1.width != width {
        return Failure(SizeMismatch);
      }
      r := m1.AddDiagonal(this);
    }

    /** `add(const matrix_diag&)`: start from a copy of m1, add this matrix's
        diagonal vector element by element, then add the two off-diagonal
        scalars. */
    method AddDiagonal(m1: Diagonal) returns (r: Result<Matrix>)
      requires Valid() && m1.Valid()
      ensures r.Failure? <==> m1.height != height || m1.width != width
      ensures r.Failure? ==> r.error == SizeMismatch
      ensures r.Success? ==> r.value.DiagonalM? && fresh(r.value.Obj())
      ensures r.Success? ==> IsSum(r.value, DiagonalM(m1), DiagonalM(this))
    {
      if m1.height != height || m1.width != width {
        return Failure(SizeMismatch);
      }
      var result := new Diagonal.Copy(m1);
      for i := 0 to |data|
        invariant result.Valid() && result.height == height && result.width == width
        invariant result.defaultVal == m1.defaultVal
        invariant forall k | 0 <= k < |data| :: result.data[k] == m1.data[k] + (if k < i then data[k] else 0)
      {
        result.data := result.data[i := result.data[i] + data[i]];
      }
      result.defaultVal := result.defaultVal + defaultVal;
      r := Success(DiagonalM(result));
    }

    /** `add(const matrix_t_& m)`: re-dispatch on m's kind with this matrix
        as the statically known diagonal argument. */
    method AddAny(m: Matrix) returns (r: Result<Matrix>)
      requires Valid() && m.Valid()
      ensures r.Failure? <==> m.Height() != height || m.Width() != width
      ensures r.Failure? ==> r.error == SizeMismatch
      ensures r.Success? ==> fresh(r.value.Obj()) && r.value.KindOf() == ResultKind(DiagonalKind, m.KindOf())
      ensures r.Success? && !m.TriangularM? ==> IsSum(r.value, DiagonalM(this), m)
      ensures r.Success? && m.TriangularM? ==> AsWrittenTriangularDiagonalSum(r.value, DiagonalM(this), m)
    {
      match m
      case DenseM(b) =>
        r := b.AddDiagonal(this);
        if r.Success? { IsSumCommutes(r.value, m, DiagonalM(this)); }
      case TriangularM(b) =>
        r := b.AddDiagonal(this);
      case DiagonalM(b) =>
        r := b.AddDiagonal(this);
    }
  }

  // =================================================== the abstract base

  datatype Kind = DenseKind | TriangularKind | DiagonalKind

  /** A `matrix_t_` of any concrete kind: the polymorphic handle that `add`
      takes and returns. */
  datatype Matrix = DenseM(dense: Dense) | TriangularM(tri: UpperTriangular) | DiagonalM(diag: Diagonal)
  {
    function Obj(): object
    {
      match this
      case DenseM(d) => d
      case TriangularM(t) => t
      case DiagonalM(g) => g
    }

    function KindOf(): Kind
    {
      match this
      case DenseM(_) => DenseKind
      case TriangularM(_) => TriangularKind
      case DiagonalM(_) => DiagonalKind
    }

    function Height(): nat
    {
      match this
      case DenseM(d) => d.height
      case TriangularM(t) => t.height
      case DiagonalM(g) => g.height
    }

    function Width(): nat
    {
      match this
      case DenseM(d) => d.width
      case TriangularM(t) => t.width
      case DiagonalM(g) => g.width
    }

    ghost predicate Valid()
      reads Obj()
    {
      match this
      case DenseM(d) => d.Valid()
      case TriangularM(t) => t.Valid()
      case DiagonalM(g) => g.Valid()
    }

    /** The virtual `operator()(row, col)`, read through. */
    function Get(row: nat, col: nat): (g: Result<int>)
      reads Obj()
      requires Valid()
      ensures g.Success? <==> row < Height() && col < Width()
      ensures g.Failure? ==> g.error == OutOfRange
    {
      match this
      case DenseM(d) => d.Get(row, col)
      case TriangularM(t) => t.Get(row, col)
      case DiagonalM(g) => g.Get(row, col)
    }

    /** The value of an in-range cell. */
    function At(row: nat, col: nat): int
      reads Obj()
      requires Valid() && row < Height() && col < Width()
    {
      Get(row, col).value
    }
  }

  /** Sum of the diagonal cells (i, i), i < n, read through `operator()`,
      starting from `T{}` = 0: what `trace()` computes. */
  ghost function DiagonalSum(m: Matrix, n: nat): int
    reads m.Obj()
    requires m.Valid() && n <= Min(m.Height(), m.Width())
  {
    if n == 0 then 0 else DiagonalSum(m, n - 1) + m.At(n - 1, n - 1)
  }

  /** The default `trace()` of `matrix_t_`, valid for every kind: sum the
      min(h, w) diagonal cells, read through the virtual `operator()`. */
  method DefaultTrace(m: Matrix) returns (sum: int)
    requires m.Valid()
    ensures sum == DiagonalSum(m, Min(m.Height(), m.Width()))
  {
    sum := 0;
    for i := 0 to Min(m.Height(), m.Width())
      invariant sum == DiagonalSum(m, i)
    {
      sum := sum + m.Get(i, i).value;
    }
  }

  /** `s` is the element-wise sum of `a` and `b`: all three have the same
      size and every in-range cell of `s` reads the sum of the two cells. */
  ghost predicate IsSum(s: Matrix, a: Matrix, b: Matrix)
    reads s.Obj(), a.Obj(), b.Obj()
  {
    && s.Valid() && a.Valid() && b.Valid()
    && s.Height() == a.Height() == b.Height()
    && s.Width() == a.Width() == b.Width()
    && forall i: nat, j: nat | i < s.Height() && j < s.Width() :: s.At(i, j) == a.At(i, j) + b.At(i, j)
  }

  /** What the triangular + diagonal add of the source produces: the sum on
      and above the diagonal, twice the diagonal operand's value below it. */
  ghost predicate AsWrittenTriangularDiagonalSum(s: Matrix, d: Matrix, t: Matrix)
    reads s.Obj(), d.Obj(), t.Obj()
  {
    && s.Valid() && d.Valid() && t.Valid()
    && s.Height() == d.Height() == t.Height()
    && s.Width() == d.Width() == t.Width()
    && (forall i: nat, j: nat | i <= j < s.Width() && i < s.Height() :: s.At(i, j) == d.At(i, j) + t.At(i, j))
    && (forall i: nat, j: nat | j < i < s.Height() && j < s.Width() :: s.At(i, j) == d.At(i, j) + d.At(i, j))
  }

  /** The triangular + diagonal add as written is not the element-wise sum as
      soon as the matrix has a cell below the diagonal and the triangular
      operand's valInf differs from the diagonal operand's defaultVal. */
  lemma AsWrittenTriangularDiagonalIsNotSum(s: Matrix, d: Matrix, t: Matrix)
    requires AsWrittenTriangularDiagonalSum(s, d, t)
    requires d.DiagonalM? && t.TriangularM?
    requires s.Height() >= 2 && s.Width() >= 1
    requires t.tri.valInf != d.diag.defaultVal
    ensures !IsSum(s, d, t)
  {
    assert s.At(1, 0) == d.At(1, 0) + d.At(1, 0);
    assert d.At(1, 0) == d.diag.defaultVal && t.At(1, 0) == t.tri.valInf;
  }

  /** ... and it is the sum whenever the two scalars agree, which is why
      operands that both fill with 0 do not show the difference. */
  lemma AsWrittenTriangularDiagonalSumWhenFillsAgree(s: Matrix, d: Matrix, t: Matrix)
    requires AsWrittenTriangularDiagonalSum(s, d, t)
    requires d.DiagonalM? && t.TriangularM?
    requires t.tri.valInf == d.diag.defaultVal
    ensures IsSum(s, d, t)
  {
    forall i: nat, j: nat | i < s.Height() && j < s.Width()
      ensures s.At(i, j) == d.At(i, j) + t.At(i, j)
    {
      if j < i {
        assert s.At(i, j) == d.At(i, j) + d.At(i, j);
      }
    }
  }

  /** Addition is commutative in value, whatever the result kind. */
  lemma IsSumCommutes(s: Matrix, a: Matrix, b: Matrix)
    ensures IsSum(s, a, b) <==> IsSum(s, b, a)
  {
  }

  /** The result-kind table of `add`: dense absorbs everything, triangular
      absorbs diagonal, diagonal + diagonal stays diagonal. */
  function ResultKind(a: Kind, b: Kind): (k: Kind)
    ensures k == DenseKind <==> a == DenseKind || b == DenseKind
    ensures k == DiagonalKind <==> a == DiagonalKind && b == DiagonalKind
  {
    match (a, b)
    case (DenseKind, _) => DenseKind
    case (_, DenseKind) => DenseKind
    case (DiagonalKind, DiagonalKind) => DiagonalKind
    case _ => TriangularKind
  }

  /** A triangular and a diagonal operand, in either order: the one pair for
      which `add` reaches the triangular + diagonal overload. */
  predicate MixesTriangularDiagonal(m1: Matrix, m2: Matrix)
  {
    (m1.TriangularM? && m2.DiagonalM?) || (m1.DiagonalM? && m2.TriangularM?)
  }

  /** `add(m1, m2)`: `m1.add(m2)` dispatches on m1's kind, which calls
      `m2.add(*this)` and so dispatches on m2's kind with m1's kind now known
      statically. The object `add` is called on plays no part. A triangular
      and a diagonal operand, in either order, end in the triangular +
      diagonal overload as written. */
  method Add(m1: Matrix, m2: Matrix) returns (r: Result<Matrix>)
    requires m1.Valid() && m2.Valid()
    ensures r.Failure? <==> m1.Height() != m2.Height() || m1.Width() != m2.Width()
    ensures r.Failure? ==> r.error == SizeMismatch
    ensures r.Success? ==> fresh(r.value.Obj()) && r.value.KindOf() == ResultKind(m1.KindOf(), m2.KindOf())
    ensures r.Success? && !MixesTriangularDiagonal(m1, m2) ==> IsSum(r.value, m1, m2)
    ensures r.Success? && m1.TriangularM? && m2.DiagonalM? ==> AsWrittenTriangularDiagonalSum(r.value, m2, m1)
    ensures r.Success? && m1.DiagonalM? && m2.TriangularM? ==> AsWrittenTriangularDiagonalSum(r.value, m1, m2)
  {
    match m1
    case DenseM(a) => r := a.AddAny(m2);
    case TriangularM(a) => r := a.AddAny(m2);
    case DiagonalM(a) => r := a.AddAny(m2);
  }

  /** `add(m1, m2)` with the triangular + diagonal overload corrected: the
      element-wise sum for every pair of kinds. */
  method AddCorrected(m1: Matrix, m2: Matrix) returns (r: Result<Matrix>)
    requires m1.Valid() && m2.Valid()
    ensures r.Failure? <==> m1.Height() != m2.Height() || m1.Width() != m2.Width()
    ensures r.Failure? ==> r.error == SizeMismatch
    ensures r.Success? ==> fresh(r.value.Obj()) && r.value.KindOf() == ResultKind(m1.KindOf(), m2.KindOf())
    ensures r.Success? ==> IsSum(r.value, m1, m2)
  {
    match (m1, m2)
    case (TriangularM(t), DiagonalM(d)) =>
      r := t.AddDiagonalCorrected(d);
      if r.Success? { IsSumCommutes(r.value, m2, m1); }
    case (DiagonalM(d), TriangularM(t)) =>
      r := t.AddDiagonalCorrected(d);
    case _ =>
      r := Add(m1, m2);
  }
}
