/** Lines that meet y² = x³ + ax + b, in any field of odd characteristic: where a line through one point of
    the curve meets it again. */
module Chords {
  import opened Fields

  /** (x² + a)x + b */
  function Cubic<E(!new)>(F: Field<E>, a: E, b: E, x: E): E {
    F.add(F.mul(F.add(F.Square(x), a), x), b)
  }

  /** The height at `x` of the line of slope `t` through (z, y). */
  function Height<E(!new)>(F: Field<E>, t: E, z: E, y: E, x: E): E {
    F.add(y, F.mul(t, F.Sub(x, z)))
  }

  /** 2ty + t²(x - z) == x² + a + z(x + z): what remains of the condition that the line of slope `t` through
      the curve's point (z, y) meets the curve at `x`, when x - z is divided out. */
  ghost predicate Meets<E(!new)>(F: Field<E>, a: E, t: E, z: E, y: E, x: E) {
    F.add(F.mul(t, F.Double(y)), F.mul(F.Square(t), F.Sub(x, z)))
      == F.add(F.add(F.Square(x), a), F.mul(z, F.add(x, z)))
  }

  /** (a - b) + (b - c) == a - c */
  lemma Telescope<E(!new)>(F: Field<E>, a: E, b: E, c: E)
    requires IsField(F)
    ensures F.add(F.Sub(a, b), F.Sub(b, c)) == F.Sub(a, c)
  {
    Assoc(F, F.Sub(a, b), b, F.neg(c));
    SubAdd(F, a, b);
  }

  /** (p + c) - (q + c) == p - q */
  lemma SubCommon<E(!new)>(F: Field<E>, p: E, q: E, c: E)
    requires IsField(F)
    ensures F.Sub(F.add(p, c), F.add(q, c)) == F.Sub(p, q)
  {
    NegAdd(F, q, c);
    Interchange(F, p, c, F.neg(q), F.neg(c));
    Laws1(F, c);
    Laws1(F, F.Sub(p, q));
  }

  /** (p + c) + (q - p) == q + c */
  lemma AddDifference<E(!new)>(F: Field<E>, p: E, q: E, c: E)
    requires IsField(F)
    ensures F.add(F.add(p, c), F.Sub(q, p)) == F.add(q, c)
  {
    Comm(F, F.add(p, c), F.Sub(q, p));
    Assoc(F, F.Sub(q, p), p, c);
    SubAdd(F, q, p);
  }

  /** (x - z)(x + z) == x² - z² */
  lemma DifferenceOfSquares<E(!new)>(F: Field<E>, x: E, z: E)
    requires IsField(F)
    ensures F.mul(F.Sub(x, z), F.add(x, z)) == F.Sub(F.Square(x), F.Square(z))
  {
    Distribute(F, F.Sub(x, z), x, z);
    DistributeSub(F, x, x, z);
    DistributeSub(F, z, x, z);
    Comm(F, x, z);
    Telescope(F, F.Square(x), F.mul(x, z), F.Square(z));
  }

  /** x³ + ax + b == z³ + az + b + (x - z)(x² + a + z(x + z)) */
  lemma CubicStep<E(!new)>(F: Field<E>, a: E, b: E, x: E, z: E)
    requires IsField(F)
    ensures Cubic(F, a, b, x)
         == F.add(Cubic(F, a, b, z), F.mul(F.Sub(x, z), F.add(F.add(F.Square(x), a), F.mul(z, F.add(x, z)))))
  {
    var d, A, B := F.Sub(x, z), F.add(F.Square(x), a), F.add(F.Square(z), a);
    Distribute(F, d, A, F.mul(z, F.add(x, z)));
    DistributeSub(F, A, x, z);
    Assoc(F, d, z, F.add(x, z));
    Comm(F, d, z);
    Assoc(F, z, d, F.add(x, z));
    DifferenceOfSquares(F, x, z);
    SubCommon(F, F.Square(x), F.Square(z), a);
    DistributeSub(F, z, A, B);
    Comm(F, A, x);
    Comm(F, B, z);
    Telescope(F, F.mul(A, x), F.mul(z, A), F.mul(z, B));
    Comm(F, A, z);
    AddDifference(F, F.mul(B, z), F.mul(A, x), b);
  }

  /** (y + td)² == y² + d(2ty + t²d) */
  lemma SquareStep<E(!new)>(F: Field<E>, t: E, y: E, d: E)
    requires IsField(F)
    ensures F.Square(F.add(y, F.mul(t, d)))
         == F.add(F.Square(y), F.mul(d, F.add(F.mul(t, F.Double(y)), F.mul(F.Square(t), d))))
  {
    var e := F.mul(t, d);
    SquareOfSum(F, y, e);
    // e(2y + e) == d(t·2y + t·e)
    Comm(F, t, d);
    Assoc(F, d, t, F.add(F.Double(y), e));
    Distribute(F, t, F.Double(y), e);
    Assoc(F, t, t, d);
  }

  /** (y + e)² == y² + e(2y + e) */
  lemma SquareOfSum<E(!new)>(F: Field<E>, y: E, e: E)
    requires IsField(F)
    ensures F.Square(F.add(y, e)) == F.add(F.Square(y), F.mul(e, F.add(F.Double(y), e)))
  {
    var s := F.add(y, e);
    Distribute(F, s, y, e);
    Distribute(F, y, y, e);
    // (y² + ey) + e·s
    Comm(F, s, e);
    Comm(F, y, s);
    Comm(F, y, e);
    Assoc(F, F.Square(y), F.mul(e, y), F.mul(e, s));
    Distribute(F, e, y, s);
    Assoc(F, y, y, e);
  }

  /** The line meets the curve wherever that condition holds, and at no other x but z. */
  lemma MeetsCubic<E(!new)>(F: Field<E>, a: E, b: E, t: E, z: E, y: E, x: E)
    requires IsField(F) && F.Square(y) == Cubic(F, a, b, z)
    ensures F.Square(Height(F, t, z, y, x)) == Cubic(F, a, b, x) <==> x == z || Meets(F, a, t, z, y, x)
  {
    var d := F.Sub(x, z);
    var l := F.add(F.mul(t, F.Double(y)), F.mul(F.Square(t), d));
    var r := F.add(F.add(F.Square(x), a), F.mul(z, F.add(x, z)));
    SquareStep(F, t, y, d);
    CubicStep(F, a, b, x, z);
    SubZero(F, x, z);
    if F.add(F.Square(y), F.mul(d, l)) == F.add(F.Square(y), F.mul(d, r)) && x != z {
      AddCancel(F, F.Square(y), F.mul(d, l), F.mul(d, r));
      MulCancel(F, d, l, r);
    }
    if x == z {
      MulZero(F, l);
      MulZero(F, r);
    }
  }

  lemma MulCancel<E(!new)>(F: Field<E>, d: E, l: E, r: E)
    requires IsField(F) && d != F.zero && F.mul(d, l) == F.mul(d, r)
    ensures l == r
  {
    Assoc(F, F.inv(d), d, l);
    Assoc(F, F.inv(d), d, r);
    Comm(F, F.inv(d), d);
    Laws1(F, d);
    Laws1(F, l);
    Laws1(F, r);
  }

  /** A line that meets the curve at z and x meets it at t² - z - x. */
  lemma ThirdPoint<E(!new)>(F: Field<E>, a: E, t: E, z: E, y: E, x: E)
    requires IsField(F) && Meets(F, a, t, z, y, x)
    ensures Meets(F, a, t, z, y, F.Sub(F.Sub(F.Square(t), z), x))
  {
    var s := F.Square(t);
    var w := F.Sub(F.Sub(s, z), x);
    var v := F.mul(t, F.Double(y));
    var d := F.Sub(w, x);
    // s == w + x + z
    SubAdd(F, F.Sub(s, z), x);
    SubAdd(F, s, z);
    assert s == F.add(F.add(w, x), z);
    // left: s(w - z) == s(x - z) + s·d
    Telescope(F, w, x, z);
    Distribute(F, s, d, F.Sub(x, z));
    Comm(F, F.mul(s, d), F.mul(s, F.Sub(x, z)));
    Assoc(F, v, F.mul(s, F.Sub(x, z)), F.mul(s, d));
    // right: s·d == (w² - x²) + z·d
    Comm(F, s, d);
    Distribute(F, d, F.add(w, x), z);
    DifferenceOfSquares(F, w, x);
    Comm(F, d, z);
    RightSide(F, a, z, x, w);
  }

  /** There is no other such x. */
  lemma OnlyThirdPoint<E(!new)>(F: Field<E>, a: E, t: E, z: E, y: E, x: E, w: E)
    requires IsField(F) && Meets(F, a, t, z, y, x) && Meets(F, a, t, z, y, w) && w != x
    ensures w == F.Sub(F.Sub(F.Square(t), z), x)
  {
    var s, v, d := F.Square(t), F.mul(t, F.Double(y)), F.Sub(w, x);
    var left := F.add(v, F.mul(s, F.Sub(x, z)));
    // both conditions together: s·d == d(w + x + z)
    Telescope(F, w, x, z);
    Distribute(F, s, d, F.Sub(x, z));
    Comm(F, F.mul(s, d), F.mul(s, F.Sub(x, z)));
    Assoc(F, v, F.mul(s, F.Sub(x, z)), F.mul(s, d));
    Distribute(F, d, F.add(w, x), z);
    DifferenceOfSquares(F, w, x);
    Comm(F, d, z);
    RightSide(F, a, z, x, w);
    AddCancel(F, left, F.mul(s, d), F.mul(d, F.add(F.add(w, x), z)));
    Comm(F, s, d);
    SubZero(F, w, x);
    MulCancel(F, d, s, F.add(F.add(w, x), z));
    SubAdd(F, F.add(w, x), z);
    SubAdd(F, w, x);
  }

  /** (x² + a + z(x + z)) + ((w² - x²) + z(w - x)) == w² + a + z(w + z) */
  lemma RightSide<E(!new)>(F: Field<E>, a: E, z: E, x: E, w: E)
    requires IsField(F)
    ensures F.add(F.add(F.add(F.Square(x), a), F.mul(z, F.add(x, z))),
                  F.add(F.Sub(F.Square(w), F.Square(x)), F.mul(z, F.Sub(w, x))))
         == F.add(F.add(F.Square(w), a), F.mul(z, F.add(w, z)))
  {
    Interchange(F, F.add(F.Square(x), a), F.mul(z, F.add(x, z)),
                F.Sub(F.Square(w), F.Square(x)), F.mul(z, F.Sub(w, x)));
    AddDifference(F, F.Square(x), F.Square(w), a);
    AddDifference(F, x, w, z);
    Distribute(F, z, F.add(x, z), F.Sub(w, x));
  }
}
