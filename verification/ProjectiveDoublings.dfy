/** Repeated doubling in projective coordinates without a single inversion (ecp.cpp,
    ProjectiveDoubling), against the affine doubling of the same file. */
module ProjectiveDoublings {
  import opened Fields
  import opened EllipticCurves

  datatype ProjectivePoint<E> = ProjectivePoint(x: E, y: E, z: E)

  /** The affine point (X/Z², Y/Z³); Z = 0 is the point at infinity. */
  function ToAffine<E(!new, ==)>(F: Field<E>, P: ProjectivePoint<E>): Point<E> {
    if P.z == F.zero then Infinity else Normalized(F, P.x, P.y, F.inv(P.z))
  }

  /** The affine point, given the inverse `i` of Z. */
  function Normalized<E(!new)>(F: Field<E>, x: E, y: E, i: E): Point<E> {
    Affine(F.mul(x, F.Square(i)), F.mul(F.mul(y, i), F.Square(i)))
  }

  function Fourth<E(!new)>(F: Field<E>, z: E): E {
    F.Square(F.Square(z))
  }

  lemma SquareOfProduct<E(!new)>(F: Field<E>, a: E, b: E)
    requires IsField(F)
    ensures F.Square(F.mul(a, b)) == F.mul(F.Square(a), F.Square(b))
  {
    Interchange(F, a, b, a, b);
  }

  lemma SquareOfInverses<E(!new)>(F: Field<E>, a: E)
    requires IsField(F) && a != F.zero
    ensures F.mul(F.Square(a), F.Square(F.inv(a))) == F.one
    ensures F.mul(F.Square(F.inv(a)), F.Square(a)) == F.one
  {
    SquareOfProduct(F, a, F.inv(a));
    Laws1(F, a);
    Laws1(F, F.one);
    Comm(F, F.Square(a), F.Square(F.inv(a)));
  }

  lemma FourthOfInverses<E(!new)>(F: Field<E>, a: E)
    requires IsField(F) && a != F.zero
    ensures F.mul(Fourth(F, a), Fourth(F, F.inv(a))) == F.one
  {
    SquareOfInverses(F, a);
    SquareOfProduct(F, F.Square(a), F.Square(F.inv(a)));
    Laws1(F, F.one);
  }

  /** 3X² + aZ⁴ over Z⁴ is the numerator of the affine tangent. */
  lemma TangentScaled<E(!new)>(F: Field<E>, a: E, X: E, Z: E)
    requires IsField(F) && Z != F.zero
    ensures Tangent(F, a, F.mul(X, F.Square(F.inv(Z))))
         == F.mul(Tangent(F, F.mul(a, Fourth(F, Z)), X), Fourth(F, F.inv(Z)))
  {
    var i2 := F.Square(F.inv(Z));
    var t := Fourth(F, F.inv(Z));
    var X2 := F.Square(X);
    SquareOfProduct(F, X, i2);
    FourthOfInverses(F, Z);
    Assoc(F, a, Fourth(F, Z), t);
    Laws1(F, a);
    Distribute(F, t, X2, X2);
    Distribute(F, t, F.Double(X2), X2);
    Distribute(F, t, F.add(F.Double(X2), X2), F.mul(a, Fourth(F, Z)));
  }

  /** inv(2y) for y = Y/Z³ is Z³/(2Y). */
  lemma DenominatorScaled<E(!new)>(F: Field<E>, Y: E, Z: E)
    requires IsField(F) && Z != F.zero
    ensures var i := F.inv(Z);
            F.inv(F.Double(F.mul(F.mul(Y, i), F.Square(i))))
            == F.mul(F.mul(F.inv(F.Double(Y)), Z), F.Square(Z))
  {
    var i := F.inv(Z);
    Distribute(F, F.Square(i), F.mul(Y, i), F.mul(Y, i));
    Distribute(F, i, Y, Y);
    InvMul(F, F.mul(F.Double(Y), i), F.Square(i));
    InvMul(F, F.Double(Y), i);
    InvMul(F, i, i);
    InvInv(F, Z);
  }

  /** The slope is M over the new Z. */
  lemma SlopeScaled<E(!new)>(F: Field<E>, a: E, X: E, Y: E, Z: E)
    requires IsField(F) && Z != F.zero
    ensures var i := F.inv(Z);
            F.Divide(Tangent(F, a, F.mul(X, F.Square(i))), F.Double(F.mul(F.mul(Y, i), F.Square(i))))
            == F.mul(Tangent(F, F.mul(a, Fourth(F, Z)), X), F.inv(F.mul(Z, F.Double(Y))))
  {
    var i, d := F.inv(Z), F.inv(F.Double(Y));
    var i2 := F.Square(i);
    var M := Tangent(F, F.mul(a, Fourth(F, Z)), X);
    TangentScaled(F, a, X, Z);
    DenominatorScaled(F, Y, Z);
    InvMul(F, Z, F.Double(Y));
    var t, c := F.Square(i2), F.mul(F.mul(d, Z), F.Square(Z));
    assert F.mul(t, c) == F.mul(i, d) by {
      Interchange(F, i2, i2, F.mul(d, Z), F.Square(Z));
      SquareOfInverses(F, Z);
      Laws1(F, F.mul(i2, F.mul(d, Z)));
      Comm(F, d, Z);
      Interchange(F, i, i, Z, d);
      Comm(F, i, Z);
      Laws1(F, Z);
      Laws1(F, F.mul(i, d));
    }
    Assoc(F, M, t, c);
  }

  /** S = 4XY² over the square of the new Z is x. */
  lemma XScaled<E(!new)>(F: Field<E>, X: E, Y: E, Z: E)
    requires IsField(F) && Y != F.zero
    ensures F.mul(F.mul(F.Square(F.Double(Y)), X), F.Square(F.inv(F.mul(Z, F.Double(Y)))))
         == F.mul(X, F.Square(F.inv(Z)))
  {
    var D := F.Double(Y);
    var i2, d2 := F.Square(F.inv(Z)), F.Square(F.inv(D));
    DoubleIsZero(F, Y);
    InvMul(F, Z, D);
    SquareOfProduct(F, F.inv(Z), F.inv(D));
    Comm(F, i2, d2);
    Interchange(F, F.Square(D), X, d2, i2);
    SquareOfInverses(F, D);
    Laws1(F, F.mul(X, i2));
  }

  /** Half of 16Y⁴ is Y·(2Y)³. */
  lemma HalfOfSixteen<E(!new)>(F: Field<E>, Y: E)
    requires IsField(F)
    ensures var D := F.Double(Y); F.half(Fourth(F, D)) == F.mul(Y, F.mul(D, F.Square(D)))
  {
    var D := F.Double(Y);
    var h, v := F.half(Fourth(F, D)), F.mul(Y, F.mul(D, F.Square(D)));
    Laws1(F, Fourth(F, D));
    Distribute(F, F.mul(D, F.Square(D)), Y, Y);
    Assoc(F, D, D, F.Square(D));
    DoubleCancel(F, h, v);
  }

  /** 8Y⁴ over the cube of the new Z is y. */
  lemma YScaled<E(!new)>(F: Field<E>, Y: E, Z: E)
    requires IsField(F) && Y != F.zero
    ensures var i, j := F.inv(Z), F.inv(F.mul(Z, F.Double(Y)));
            F.mul(F.half(Fourth(F, F.Double(Y))), F.mul(j, F.Square(j))) == F.mul(F.mul(Y, i), F.Square(i))
  {
    var D := F.Double(Y);
    var i, d, D3 := F.inv(Z), F.inv(D), F.mul(D, F.Square(D));
    var j := F.inv(F.mul(Z, D));
    HalfOfSixteen(F, Y);
    DoubleIsZero(F, Y);
    InvMul(F, Z, D);
    SquareOfProduct(F, i, d);
    Assoc(F, F.mul(Y, D3), j, F.Square(j));
    Interchange(F, Y, D3, i, d);
    Interchange(F, F.mul(Y, i), F.mul(D3, d), F.Square(i), F.Square(d));
    Comm(F, D, F.Square(D));
    Assoc(F, F.Square(D), D, d);
    Laws1(F, D);
    Laws1(F, F.Square(D));
    SquareOfInverses(F, D);
    Laws1(F, F.mul(F.mul(Y, i), F.Square(i)));
  }

  /** One projective doubling, by the formulas of the code, when aZ4 is a·Z⁴. */
  function DoubledProjective<E(!new)>(F: Field<E>, P: ProjectivePoint<E>, aZ4: E): ProjectivePoint<E> {
    var twoY := F.Double(P.y);
    var S := F.mul(F.Square(twoY), P.x);
    var M := Tangent(F, aZ4, P.x);
    var x := F.Sub(F.Sub(F.Square(M), S), S);
    ProjectivePoint(x, F.Sub(F.mul(M, F.Sub(S, x)), F.half(Fourth(F, twoY))), F.mul(P.z, twoY))
  }

  /** The formulas compute the affine doubling. */
  lemma DoublingIsAffine<E(!new)>(F: Field<E>, a: E, P: ProjectivePoint<E>)
    requires IsField(F)
    ensures ToAffine(F, DoubledProjective(F, P, F.mul(a, Fourth(F, P.z)))) == Doubled(F, a, ToAffine(F, P))
  {
    DoubleIsZero(F, P.y);
    NoZeroDivisors(F, P.z, F.Double(P.y));
    if P.z != F.zero {
      var i := F.inv(P.z);
      InvInv(F, P.z);
      NoZeroDivisors(F, i, i);
      NoZeroDivisors(F, P.y, i);
      NoZeroDivisors(F, F.mul(P.y, i), F.Square(i));
      if P.y != F.zero {
        FiniteDoubling(F, a, P);
      }
    }
  }

  lemma FiniteDoubling<E(!new)>(F: Field<E>, a: E, P: ProjectivePoint<E>)
    requires IsField(F) && P.z != F.zero && P.y != F.zero
    ensures var P' := DoubledProjective(F, P, F.mul(a, Fourth(F, P.z)));
            var A := Normalized(F, P.x, P.y, F.inv(P.z));
            Normalized(F, P'.x, P'.y, F.inv(P'.z))
            == Chord(F, F.Divide(Tangent(F, a, A.x), F.Double(A.y)), A, A.x)
  {
    var P' := DoubledProjective(F, P, F.mul(a, Fourth(F, P.z)));
    var A := Normalized(F, P.x, P.y, F.inv(P.z));
    var S := F.mul(F.Square(F.Double(P.y)), P.x);
    var M := Tangent(F, F.mul(a, Fourth(F, P.z)), P.x);
    var j := F.inv(P'.z);
    var j2 := F.Square(j);
    var slope := F.mul(M, j);
    SlopeScaled(F, a, P.x, P.y, P.z);
    XScaled(F, P.x, P.y, P.z);
    YScaled(F, P.y, P.z);
    SquareOfProduct(F, M, j);
    DistributeSub(F, j2, F.Square(M), S);
    DistributeSub(F, j2, F.Sub(F.Square(M), S), S);
    // A.x - x' == (S - X')·j2
    DistributeSub(F, j2, S, P'.x);
    Interchange(F, M, j, F.Sub(S, P'.x), j2);
    var half := F.half(Fourth(F, F.Double(P.y)));
    DistributeSub(F, F.mul(j, j2), F.mul(M, F.Sub(S, P'.x)), half);
    Assoc(F, P'.y, j, j2);
  }

  class ProjectiveDoubling<E(!new, ==)> {
    const F: Field<E>
    const a: E
    var P: ProjectivePoint<E>
    var sixteenY4: E
    var aZ4: E

    /** The next doubling multiplies these two, and needs the product to be a·Z⁴. */
    ghost predicate Valid()
      reads this
    {
      IsField(F) && F.mul(aZ4, sixteenY4) == F.mul(a, Fourth(F, P.z))
    }

    constructor (F: Field<E>, a: E, Q: Point<E>)
      requires IsField(F)
      ensures Valid() && this.F == F && this.a == a
      ensures ToAffine(F, P) == Q
    {
      this.F := F;
      this.a := a;
      if Q.Infinity? {
        sixteenY4 := F.one;
        P := ProjectivePoint(F.one, F.one, F.zero);
        aZ4 := F.zero;
      } else {
        P := ProjectivePoint(Q.x, Q.y, F.one);
        sixteenY4 := F.one;
        aZ4 := a;
      }
      new;
      MulZero(F, F.zero);
      MulZero(F, a);
      Laws1(F, F.zero);
      Laws1(F, F.one);
      Laws1(F, a);
      InvUnique(F, F.one, F.one);
      if Q.Affine? {
        Laws1(F, Q.x);
        Laws1(F, Q.y);
      }
    }

    /** The point doubles, and once it is at infinity it stays there. */
    method Double()
      requires Valid()
      modifies this
      ensures Valid()
      ensures ToAffine(F, P) == Doubled(F, a, ToAffine(F, old(P)))
      ensures old(P.z) == F.zero ==> P.z == F.zero
    {
      DoublingIsAffine(F, a, P);
      MulZero(F, F.Double(P.y));
      FourthOfProduct(F, P.z, F.Double(P.y));
      Assoc(F, a, Fourth(F, P.z), Fourth(F, F.Double(P.y)));
      hide IsField, Fourth, Doubled;
      var twoY := F.Double(P.y);
      var z := F.mul(P.z, twoY);
      var fourY2 := F.Square(twoY);
      var S := F.mul(fourY2, P.x);
      aZ4 := F.mul(aZ4, sixteenY4);
      var M := F.Square(P.x);
      M := F.add(F.add(F.Double(M), M), aZ4);
      var x := F.Square(M);
      x := F.Sub(x, S);
      x := F.Sub(x, S);
      S := F.Sub(S, x);
      var y := F.mul(M, S);
      sixteenY4 := F.Square(fourY2);
      FourthIs(F, twoY);
      y := F.Sub(y, F.half(sixteenY4));
      P := ProjectivePoint(x, y, z);
    }
  }

  lemma FourthIs<E(!new)>(F: Field<E>, z: E)
    ensures Fourth(F, z) == F.Square(F.Square(z))
  {}

  lemma FourthOfProduct<E(!new)>(F: Field<E>, a: E, b: E)
    requires IsField(F)
    ensures Fourth(F, F.mul(a, b)) == F.mul(Fourth(F, a), Fourth(F, b))
  {
    SquareOfProduct(F, a, b);
    SquareOfProduct(F, F.Square(a), F.Square(b));
  }
}
