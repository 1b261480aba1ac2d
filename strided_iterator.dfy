/**
 * arthoolbox::iterator::strided_iterator: an iterator decorator that moves
 * `stride` steps of the underlying iterator at a time. The underlying
 * iterator is modelled by its position, an integer offset into the
 * underlying range; dereferencing it is not part of the model.
 */
module StridedIterator {

  /** The value of a strided iterator: its position and its stride. */
  datatype Strided = Strided(base: int, stride: int)

  /** The iterator moved n strides: base + n * stride, stride unchanged. */
  function Advance(it: Strided, n: int): (r: Strided)
    ensures r.stride == it.stride
  {
    Strided(it.base + n * it.stride, it.stride)
  }

  /** Moving a strides and then b strides is moving a + b strides. */
  lemma AdvanceAdds(it: Strided, a: int, b: int)
    ensures Advance(Advance(it, a), b) == Advance(it, a + b)
  {
    assert (a + b) * it.stride == a * it.stride + b * it.stride;
  }

  /** Moving n strides forward and then n back returns to the start. */
  lemma AdvanceBack(it: Strided, n: int)
    ensures Advance(Advance(it, n), -n) == it
  {
    AdvanceAdds(it, n, -n);
  }

  /** operator==: the positions are equal; the strides are not compared. */
  predicate Equal(lhs: Strided, rhs: Strided) {
    lhs.base == rhs.base
  }

  /** operator!=: not ==. */
  predicate NotEqual(lhs: Strided, rhs: Strided) {
    !Equal(lhs, rhs)
  }

  /** operator<: the positions compare. */
  predicate Less(lhs: Strided, rhs: Strided) {
    lhs.base < rhs.base
  }

  /** operator>: rhs < lhs. */
  predicate Greater(lhs: Strided, rhs: Strided) {
    Less(rhs, lhs)
  }

  /** operator<=: not rhs < lhs. */
  predicate LessEqual(lhs: Strided, rhs: Strided) {
    !Less(rhs, lhs)
  }

  /** operator>=: not lhs < rhs. */
  predicate GreaterEqual(lhs: Strided, rhs: Strided) {
    !Less(lhs, rhs)
  }

  /** iterator + iterator: the sum of the positions. */
  function Sum(lhs: Strided, rhs: Strided): (r: int)
    ensures r - rhs.base == lhs.base
  {
    lhs.base + rhs.base
  }

  /** iterator - iterator: the raw difference of the positions, not a number of strides. */
  function Difference(lhs: Strided, rhs: Strided): (r: int)
    ensures rhs.base + r == lhs.base
  {
    lhs.base - rhs.base
  }

  /** Iterators at the same position are equal whatever their strides. */
  lemma EqualIgnoresStride(b: int, s: int, t: int)
    ensures Equal(Strided(b, s), Strided(b, t))
    ensures s != t ==> Strided(b, s) != Strided(b, t)
  {
  }

  /** Exactly one of lhs < rhs, lhs == rhs and rhs < lhs holds. */
  lemma LessIsTrichotomous(lhs: Strided, rhs: Strided)
    ensures Less(lhs, rhs) || Equal(lhs, rhs) || Less(rhs, lhs)
    ensures !(Less(lhs, rhs) && Equal(lhs, rhs))
    ensures !(Less(lhs, rhs) && Less(rhs, lhs))
    ensures !(Equal(lhs, rhs) && Less(rhs, lhs))
  {
  }

  /** < is transitive. */
  lemma LessIsTransitive(a: Strided, b: Strided, c: Strided)
    requires Less(a, b) && Less(b, c)
    ensures Less(a, c)
  {
  }

  /** <= is < or ==, and >= is > or ==. */
  lemma DerivedComparisons(lhs: Strided, rhs: Strided)
    ensures LessEqual(lhs, rhs) <==> Less(lhs, rhs) || Equal(lhs, rhs)
    ensures GreaterEqual(lhs, rhs) <==> Greater(lhs, rhs) || Equal(lhs, rhs)
    ensures NotEqual(lhs, rhs) <==> Less(lhs, rhs) || Greater(lhs, rhs)
  {
  }

  /** The difference after moving n strides is n times the stride, not n. */
  lemma DifferenceOfAdvance(it: Strided, n: int)
    ensures Difference(Advance(it, n), it) == n * it.stride
  {
  }

  /** Moving forward by a positive stride makes the iterator greater. */
  lemma AdvanceOrders(it: Strided, n: int)
    requires n > 0 && it.stride > 0
    ensures Less(it, Advance(it, n))
  {
    assert n * it.stride >= it.stride;
  }

  /** A strided iterator, moved in place by ++, --, += and -=. */
  class StridedIter {
    var current: int
    var step: int

    ghost function Model(): Strided
      reads this
    {
      Strided(current, step)
    }

    /** strided_iterator(start, stride). */
    constructor (start: int, stride: int)
      ensures Model() == Strided(start, stride)
    {
      current, step := start, stride;
    }

    /** The copy constructor. */
    constructor Copy(other: StridedIter)
      ensures Model() == other.Model()
    {
      current, step := other.current, other.step;
    }

    /** The (converting) assignment: position and stride are both copied. */
    method Assign(other: StridedIter)
      modifies this
      ensures Model() == old(other.Model())
    {
      current, step := other.current, other.step;
    }

    /** base(): the current position. */
    function Base(): int
      reads this
    {
      current
    }

    /** stride(): the stride given at construction or by the last assignment. */
    function Stride(): int
      reads this
    {
      step
    }

    /** Prefix ++: one stride forward. */
    method Increment()
      modifies this
      ensures Model() == Advance(old(Model()), 1)
    {
      current := current + step;
    }

    /** Postfix ++: one stride forward, returning the iterator as it was. */
    method PostIncrement() returns (before: Strided)
      modifies this
      ensures before == old(Model()) && Model() == Advance(old(Model()), 1)
    {
      before := Strided(current, step);
      Increment();
    }

    /** Prefix --: one stride back. */
    method Decrement()
      modifies this
      ensures Model() == Advance(old(Model()), -1)
    {
      current := current - step;
    }

    /** Postfix --: one stride back, returning the iterator as it was. */
    method PostDecrement() returns (before: Strided)
      modifies this
      ensures before == old(Model()) && Model() == Advance(old(Model()), -1)
    {
      before := Strided(current, step);
      Decrement();
    }

    /** += n: n strides forward. */
    method AddAssign(n: int)
      modifies this
      ensures Model() == Advance(old(Model()), n)
    {
      current := current + n * step;
    }

    /** -= n: n strides back. */
    method SubtractAssign(n: int)
      modifies this
      ensures Model() == Advance(old(Model()), -n)
    {
      current := current - n * step;
    }

    /** iterator + n: a new iterator n strides forward, with the same stride. */
    function Plus(n: int): (r: Strided)
      reads this
      ensures r.stride == step && r.base - current == n * step
    {
      Strided(current + n * step, step)
    }

    /** iterator - n: a new iterator n strides back, with the same stride. */
    function Minus(n: int): (r: Strided)
      reads this
      ensures r.stride == step && current - r.base == n * step
    {
      Strided(current - n * step, step)
    }
  }

  /** A copy moved with ++ and then -- is back where it started. */
  method IncrementDecrementRoundTrip(start: int, stride: int) returns (it: StridedIter)
    ensures it.Base() == start && it.Stride() == stride
  {
    it := new StridedIter(start, stride);
    it.Increment();
    it.Decrement();
  }

  /** += n followed by -= n is back where it started, and the stride never changed. */
  method AddSubtractRoundTrip(start: int, stride: int, n: int) returns (it: StridedIter)
    ensures it.Base() == start && it.Stride() == stride
  {
    it := new StridedIter(start, stride);
    it.AddAssign(n);
    it.SubtractAssign(n);
    AdvanceBack(Strided(start, stride), n);
  }
}
