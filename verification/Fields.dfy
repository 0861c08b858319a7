/** Fields of odd characteristic as values, with the operations the curve code asks of its field
    object, among them halving and an inverse that maps zero to zero. */
module Fields {

  datatype Field<!E(!new)> = Field(
    zero: E,
    one: E,
    add: (E, E) -> E,
    neg: E -> E,
    mul: (E, E) -> E,
    inv: E -> E,
    half: E -> E)
  {
    function Sub(a: E, b: E): E { add(a, neg(b)) }
    function Double(a: E): E { add(a, a) }
    function Square(a: E): E { mul(a, a) }
    function Divide(a: E, b: E): E { mul(a, inv(b)) }
  }

  ghost predicate UnaryLaws<E(!new)>(F: Field<E>, a: E) {
    && F.add(a, F.zero) == a && F.add(a, F.neg(a)) == F.zero
    && F.mul(a, F.one) == a
    && (a != F.zero ==> F.mul(a, F.inv(a)) == F.one)
    && F.add(F.half(a), F.half(a)) == a
  }

  ghost predicate BinaryLaws<E(!new)>(F: Field<E>, a: E, b: E) {
    F.add(a, b) == F.add(b, a) && F.mul(a, b) == F.mul(b, a)
  }

  ghost predicate TernaryLaws<E(!new)>(F: Field<E>, a: E, b: E, c: E) {
    && F.add(F.add(a, b), c) == F.add(a, F.add(b, c))
    && F.mul(F.mul(a, b), c) == F.mul(a, F.mul(b, c))
    && F.mul(a, F.add(b, c)) == F.add(F.mul(a, b), F.mul(a, c))
  }

  ghost predicate IsField<E(!new)>(F: Field<E>) {
    && F.one != F.zero && F.inv(F.zero) == F.zero
    && (forall a :: UnaryLaws(F, a))
    && (forall a, b :: BinaryLaws(F, a, b))
    && (forall a, b, c :: TernaryLaws(F, a, b, c))
  }

  lemma Laws1<E(!new)>(F: Field<E>, a: E)
    requires IsField(F)
    ensures UnaryLaws(F, a) && F.add(F.zero, a) == a && F.mul(F.one, a) == a && F.add(F.neg(a), a) == F.zero
  {
    assert BinaryLaws(F, a, F.zero) && BinaryLaws(F, a, F.one) && BinaryLaws(F, a, F.neg(a));
  }

  lemma Comm<E(!new)>(F: Field<E>, a: E, b: E)
    requires IsField(F)
    ensures F.add(a, b) == F.add(b, a) && F.mul(a, b) == F.mul(b, a)
  {
    assert BinaryLaws(F, a, b);
  }

  lemma Assoc<E(!new)>(F: Field<E>, a: E, b: E, c: E)
    requires IsField(F)
    ensures F.add(F.add(a, b), c) == F.add(a, F.add(b, c))
    ensures F.mul(F.mul(a, b), c) == F.mul(a, F.mul(b, c))
  {
    assert TernaryLaws(F, a, b, c);
  }

  lemma Distribute<E(!new)>(F: Field<E>, a: E, b: E, c: E)
    requires IsField(F)
    ensures F.mul(a, F.add(b, c)) == F.add(F.mul(a, b), F.mul(a, c))
    ensures F.mul(F.add(b, c), a) == F.add(F.mul(b, a), F.mul(c, a))
  {
    assert TernaryLaws(F, a, b, c);
    Comm(F, a, b);
    Comm(F, a, c);
    Comm(F, a, F.add(b, c));
  }

  /** (ab)(cd) == (ac)(bd), and the same for sums. */
  lemma Interchange<E(!new)>(F: Field<E>, a: E, b: E, c: E, d: E)
    requires IsField(F)
    ensures F.mul(F.mul(a, b), F.mul(c, d)) == F.mul(F.mul(a, c), F.mul(b, d))
    ensures F.add(F.add(a, b), F.add(c, d)) == F.add(F.add(a, c), F.add(b, d))
  {
    Assoc(F, a, b, F.mul(c, d));
    Assoc(F, b, c, d);
    Comm(F, b, c);
    Assoc(F, c, b, d);
    Assoc(F, a, c, F.mul(b, d));
    Assoc(F, a, b, F.add(c, d));
    Assoc(F, a, c, F.add(b, d));
  }

  lemma AddCancel<E(!new)>(F: Field<E>, a: E, b: E, c: E)
    requires IsField(F) && F.add(a, b) == F.add(a, c)
    ensures b == c
  {
    Assoc(F, F.neg(a), a, b);
    Assoc(F, F.neg(a), a, c);
    Laws1(F, a);
    Laws1(F, b);
    Laws1(F, c);
  }

  lemma MulZero<E(!new)>(F: Field<E>, a: E)
    requires IsField(F)
    ensures F.mul(a, F.zero) == F.zero && F.mul(F.zero, a) == F.zero
  {
    Distribute(F, a, F.zero, F.zero);
    Laws1(F, F.zero);
    Laws1(F, F.mul(a, F.zero));
    AddCancel(F, F.mul(a, F.zero), F.mul(a, F.zero), F.zero);
    Comm(F, a, F.zero);
  }

  lemma NegUnique<E(!new)>(F: Field<E>, a: E, b: E)
    requires IsField(F) && F.add(a, b) == F.zero
    ensures b == F.neg(a)
  {
    Laws1(F, a);
    AddCancel(F, a, b, F.neg(a));
  }

  lemma MulNeg<E(!new)>(F: Field<E>, a: E, b: E)
    requires IsField(F)
    ensures F.mul(F.neg(a), b) == F.neg(F.mul(a, b)) == F.mul(b, F.neg(a))
  {
    Distribute(F, b, a, F.neg(a));
    Laws1(F, a);
    MulZero(F, b);
    NegUnique(F, F.mul(a, b), F.mul(F.neg(a), b));
    Comm(F, F.neg(a), b);
  }

  lemma NegNeg<E(!new)>(F: Field<E>, a: E)
    requires IsField(F)
    ensures F.neg(F.neg(a)) == a && F.neg(F.zero) == F.zero
  {
    Laws1(F, a);
    NegUnique(F, F.neg(a), a);
    Laws1(F, F.zero);
    NegUnique(F, F.zero, F.zero);
  }

  lemma NegAdd<E(!new)>(F: Field<E>, a: E, b: E)
    requires IsField(F)
    ensures F.neg(F.add(a, b)) == F.add(F.neg(a), F.neg(b))
    ensures F.neg(F.Sub(a, b)) == F.Sub(b, a)
  {
    NegAddOnly(F, a, b);
    NegAddOnly(F, a, F.neg(b));
    NegNeg(F, b);
    Comm(F, F.neg(a), b);
  }

  lemma NegAddOnly<E(!new)>(F: Field<E>, a: E, b: E)
    requires IsField(F)
    ensures F.neg(F.add(a, b)) == F.add(F.neg(a), F.neg(b))
  {
    Interchange(F, a, b, F.neg(a), F.neg(b));
    Laws1(F, a);
    Laws1(F, b);
    Laws1(F, F.zero);
    NegUnique(F, F.add(a, b), F.add(F.neg(a), F.neg(b)));
  }

  /** (b - c)·a == b·a - c·a, on either side. */
  lemma DistributeSub<E(!new)>(F: Field<E>, a: E, b: E, c: E)
    requires IsField(F)
    ensures F.mul(F.Sub(b, c), a) == F.Sub(F.mul(b, a), F.mul(c, a))
    ensures F.mul(a, F.Sub(b, c)) == F.Sub(F.mul(a, b), F.mul(a, c))
  {
    Distribute(F, a, b, F.neg(c));
    MulNeg(F, c, a);
    Comm(F, a, c);
  }

  lemma SubZero<E(!new)>(F: Field<E>, a: E, b: E)
    requires IsField(F)
    ensures F.Sub(a, b) == F.zero <==> a == b
  {
    Laws1(F, a);
    Laws1(F, b);
    if F.Sub(a, b) == F.zero {
      Comm(F, a, F.neg(b));
      NegUnique(F, F.neg(b), a);
      NegNeg(F, b);
    }
  }

  /** (a - b) + b == a */
  lemma SubAdd<E(!new)>(F: Field<E>, a: E, b: E)
    requires IsField(F)
    ensures F.add(F.Sub(a, b), b) == a && F.Sub(F.add(a, b), b) == a
  {
    Assoc(F, a, F.neg(b), b);
    Assoc(F, a, b, F.neg(b));
    Laws1(F, a);
    Laws1(F, b);
  }

  lemma NoZeroDivisors<E(!new)>(F: Field<E>, a: E, b: E)
    requires IsField(F)
    ensures F.mul(a, b) == F.zero <==> a == F.zero || b == F.zero
  {
    MulZero(F, a);
    MulZero(F, b);
    MulZero(F, F.inv(a));
    if F.mul(a, b) == F.zero && a != F.zero {
      Assoc(F, F.inv(a), a, b);
      Laws1(F, a);
      Comm(F, a, F.inv(a));
      Laws1(F, b);
    }
  }

  /** The only inverse of a nonzero element. */
  lemma InvUnique<E(!new)>(F: Field<E>, a: E, b: E)
    requires IsField(F) && F.mul(a, b) == F.one
    ensures a != F.zero && b == F.inv(a)
  {
    MulZero(F, b);
    Assoc(F, F.inv(a), a, b);
    Comm(F, F.inv(a), a);
    Laws1(F, a);
    Laws1(F, b);
    Laws1(F, F.inv(a));
  }

  /** Inverses of products, with the inverse of zero being zero. */
  lemma InvMul<E(!new)>(F: Field<E>, a: E, b: E)
    requires IsField(F)
    ensures F.inv(F.mul(a, b)) == F.mul(F.inv(a), F.inv(b))
  {
    NoZeroDivisors(F, a, b);
    if a == F.zero {
      MulZero(F, F.inv(b));
    } else if b == F.zero {
      MulZero(F, F.inv(a));
    } else {
      Interchange(F, a, b, F.inv(a), F.inv(b));
      Laws1(F, a);
      Laws1(F, b);
      Laws1(F, F.one);
      InvUnique(F, F.mul(a, b), F.mul(F.inv(a), F.inv(b)));
    }
  }

  /** An inverse is zero only for zero, and inverting twice gives the element back. */
  lemma InvInv<E(!new)>(F: Field<E>, a: E)
    requires IsField(F)
    ensures (F.inv(a) == F.zero <==> a == F.zero) && F.inv(F.inv(a)) == a
  {
    if a != F.zero {
      Laws1(F, a);
      MulZero(F, a);
      Comm(F, a, F.inv(a));
      InvUnique(F, F.inv(a), a);
    }
  }

  /** Doubling loses nothing in odd characteristic. */
  lemma DoubleCancel<E(!new)>(F: Field<E>, a: E, b: E)
    requires IsField(F) && F.Double(a) == F.Double(b)
    ensures a == b
  {
    HalfOfDouble(F, a);
    HalfOfDouble(F, b);
  }

  /** half(1)·(a + a) == a */
  lemma HalfOfDouble<E(!new)>(F: Field<E>, a: E)
    requires IsField(F)
    ensures F.mul(F.half(F.one), F.Double(a)) == a
  {
    var h := F.half(F.one);
    Distribute(F, h, a, a);
    Distribute(F, a, h, h);
    Comm(F, h, a);
    Laws1(F, F.one);
    Laws1(F, a);
  }

  lemma DoubleIsZero<E(!new)>(F: Field<E>, a: E)
    requires IsField(F)
    ensures F.Double(a) == F.zero <==> a == F.zero
  {
    Laws1(F, F.zero);
    if F.Double(a) == F.zero { DoubleCancel(F, a, F.zero); }
  }

  /** The axioms can be met: the real numbers. */
  lemma RealsAreField()
    ensures IsField(Reals())
  {
    forall a ensures UnaryLaws(Reals(), a) {}
    forall a, b ensures BinaryLaws(Reals(), a, b) {}
    forall a, b, c ensures TernaryLaws(Reals(), a, b, c) {}
  }

  function Reals(): Field<real> {
    Field(0.0, 1.0, (a: real, b: real) => a + b, (a: real) => -a, (a: real, b: real) => a * b,
          (a: real) => if a == 0.0 then 0.0 else 1.0 / a, (a: real) => a / 2.0)
  }
}
