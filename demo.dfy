/**
  The driver programs' concrete matrices, with the values their traces and
  sums take, and the smallest pair of operands on which the triangular +
  diagonal add as written goes wrong.
*/
module Demo {
  import opened Errors
  import opened Layout
  import opened OperatorPlus
  import opened Matrices

  /** The upper-triangular matrix of the later driver, n x n with n = 4
      there, filled below the diagonal with 1; the diagonal cells from (3, 3)
      on are never written and stay 0. */
  method TriangularExample(n: nat) returns (m: UpperTriangular)
    requires n >= 4
    ensures fresh(m) && m.Valid() && m.height == n && m.width == n && m.valInf == 1
    ensures m.Get(0, 0) == Success(10) && m.Get(0, 1) == Success(11)
    ensures m.Get(1, 1) == Success(13) && m.Get(2, 2) == Success(13) && m.Get(3, 3) == Success(0)
  {
    m := new UpperTriangular(n, n, 1);
    assert m.Get(3, 3) == Success(0);
    var o := m.Set(0, 0, 10);
    o := m.Set(0, 1, 11);
    o := m.Set(1, 1, 13);
    o := m.Set(2, 2, 13);
  }

  /** The 4x4 diagonal matrix of the later driver, filled off the diagonal with 1. */
  method DiagonalExample() returns (m: Diagonal)
    ensures fresh(m) && m.Valid() && m.height == 4 && m.width == 4 && m.defaultVal == 1
    ensures m.data == [10, 11, 13, 13]
  {
    m := new Diagonal(4, 4, 1);
    var o := m.Set(0, 0, 10);
    o := m.Set(1, 1, 11);
    o := m.Set(2, 2, 13);
    o := m.Set(3, 3, 13);
  }

  /** The triangular trace of the driver is 10 + 13 + 13 + 0. */
  method TriangularTraceDemo() returns (t: int)
    ensures t == 36
  {
    var m := TriangularExample(4);
    t := m.Trace();
    assert DiagonalSum(TriangularM(m), 1) == 10;
    assert DiagonalSum(TriangularM(m), 2) == 10 + 13;
    assert DiagonalSum(TriangularM(m), 3) == 10 + 13 + 13;
    assert DiagonalSum(TriangularM(m), 4) == 10 + 13 + 13 + 0;
  }

  /** The diagonal trace of the driver is 10 + 11 + 13 + 13. */
  method DiagonalTraceDemo() returns (t: int)
    ensures t == 47
  {
    var m := DiagonalExample();
    t := m.Trace();
    assert DiagonalSum(DiagonalM(m), 1) == 10;
    assert DiagonalSum(DiagonalM(m), 2) == 10 + 11;
    assert DiagonalSum(DiagonalM(m), 3) == 10 + 11 + 13;
    assert DiagonalSum(DiagonalM(m), 4) == 10 + 11 + 13 + 13;
  }

  /** `m_triang + m_diag`: a dense 4x4 whose cells add the two fills. */
  method PlusDemo() returns (s: Dense)
    ensures s.height == 4 && s.width == 4 && s.Valid()
    ensures s.Get(0, 0) == Success(20) && s.Get(0, 1) == Success(12)
    ensures s.Get(1, 0) == Success(2) && s.Get(3, 3) == Success(13)
  {
    var t := TriangularExample(4);
    var d := DiagonalExample();
    var r := Plus(TriangularM(t), DiagonalM(d));
    s := r.value;
    assert IsSum(DenseM(s), DiagonalM(d), TriangularM(t));
    assert DenseM(s).At(0, 1) == DiagonalM(d).At(0, 1) + TriangularM(t).At(0, 1);
    assert DenseM(s).At(1, 0) == DiagonalM(d).At(1, 0) + TriangularM(t).At(1, 0);
    assert DenseM(s).At(0, 0) == DiagonalM(d).At(0, 0) + TriangularM(t).At(0, 0);
    assert DenseM(s).At(3, 3) == DiagonalM(d).At(3, 3) + TriangularM(t).At(3, 3);
  }

  /** Every off-diagonal cell of a diagonal matrix is one shared reference:
      writing (1, 0) changes what (3, 0) reads and what getDefaultVal returns. */
  method SharedFillDemo() returns (seen: int, fill: int)
    ensures seen == 99 && fill == 99
  {
    var m := new Diagonal(4, 4, 0);
    var o := m.Set(1, 0, 99);
    seen := m.Get(3, 0).value;
    fill := m.GetDefaultVal();
  }

  /** A 2x2 triangular matrix filled with 0 plus a 2x2 diagonal matrix filled
      with 1, through `add` in either order: the result reads 2 at (1, 0),
      where the sum is 1. */
  method TriangularPlusDiagonalCounterexample() returns (got: int, gotSwapped: int, want: int)
    ensures got == 2 && gotSwapped == 2 && want == 1
  {
    var t := new UpperTriangular(2, 2, 0);
    var d := new Diagonal(2, 2, 1);
    var r := Add(TriangularM(t), DiagonalM(d));
    got := r.value.At(1, 0);
    var rs := Add(DiagonalM(d), TriangularM(t));
    gotSwapped := rs.value.At(1, 0);
    want := DiagonalM(d).At(1, 0) + TriangularM(t).At(1, 0);
  }
}
