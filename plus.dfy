/**
  The earlier version of addition: `matrix_t_::operator+`, which always
  builds a dense result, sized by the larger of the two heights and widths,
  and fills it cell by cell through the operands' virtual `operator()`.
*/
module OperatorPlus {
  import opened Errors
  import opened Layout
  import opened Matrices

  /** `self + m1`. There is no size check: when the sizes differ and the
      result is not empty, some cell is out of range for one operand and that
      operand's `operator()` throws out_of_range. The partly filled result is
      then dropped (the C++ leaks it). */
  method Plus(self: Matrix, m1: Matrix) returns (r: Result<Dense>)
    requires self.Valid() && m1.Valid()
    ensures r.Failure? <==>
      && (self.Height() != m1.Height() || self.Width() != m1.Width())
      && Max(m1.Height(), self.Height()) > 0 && Max(m1.Width(), self.Width()) > 0
    ensures r.Failure? ==> r.error == OutOfRange
    ensures r.Success? ==> fresh(r.value) && r.value.Valid()
    ensures r.Success? ==>
      r.value.height == Max(m1.Height(), self.Height()) && r.value.width == Max(m1.Width(), self.Width())
    ensures r.Success? && self.Height() == m1.Height() && self.Width() == m1.Width() ==>
      IsSum(DenseM(r.value), m1, self)
  {
    var h, w := Max(m1.Height(), self.Height()), Max(m1.Width(), self.Width());
    var result := new Dense(h, w);
    for i := 0 to h
      invariant fresh(result) && result.Valid() && result.height == h && result.width == w
      invariant 0 < i && 0 < w ==> i <= m1.Height() && i <= self.Height() && w <= m1.Width() && w <= self.Width()
      invariant forall r: nat, c: nat | r < i && c < w :: result.Get(r, c).value == m1.At(r, c) + self.At(r, c)
    {
      var o := SumRow(self, m1, result, i);
      if o.Fail? {
        return Failure(o.error);
      }
    }
    r := Success(result);
  }

  /** One pass of the inner loop of `operator+`: row `i` of `result` becomes
      the sum of row `i` of the operands, or the first access that is out of
      range for an operand throws. No other row of `result` changes. */
  method SumRow(self: Matrix, m1: Matrix, result: Dense, i: nat) returns (o: Outcome)
    requires self.Valid() && m1.Valid() && result.Valid()
    requires i < result.height
    requires result != self.Obj() && result != m1.Obj()
    modifies result
    ensures result.Valid()
    ensures o.Fail? <==>
      0 < result.width && !(i < m1.Height() && i < self.Height() && result.width <= m1.Width() && result.width <= self.Width())
    ensures o.Fail? ==> o.error == OutOfRange
    ensures o.Done? ==> forall c: nat | c < result.width :: result.Get(i, c).value == m1.At(i, c) + self.At(i, c)
    ensures forall r: nat, c: nat | r < result.height && c < result.width && r != i ::
      result.Get(r, c) == old(result.Get(r, c))
  {
    for j := 0 to result.width
      invariant result.Valid()
      invariant 0 < j ==> i < m1.Height() && i < self.Height() && j <= m1.Width() && j <= self.Width()
      invariant forall c: nat | c < j :: result.Get(i, c).value == m1.At(i, c) + self.At(i, c)
      invariant forall r: nat, c: nat | r < result.height && c < result.width && r != i ::
        result.Get(r, c) == old(result.Get(r, c))
    {
      var a := m1.Get(i, j);
      if a.Failure? {
        return Fail(a.error);
      }
      var b := self.Get(i, j);
      if b.Failure? {
        return Fail(b.error);
      }
      var done := result.Set(i, j, a.value + b.value);
    }
    o := Done;
  }
}
