/** Points of y² = x³ + ax + b in affine form, and the addition of ecp.cpp. */
module EllipticCurves {
  import opened Fields
  import opened Chords
  import opened AbelianGroups

  datatype Point<E> = Infinity | Affine(x: E, y: E)

  function Opposite<E(!new)>(F: Field<E>, P: Point<E>): Point<E> {
    match P
    case Infinity => Infinity
    case Affine(x, y) => Affine(x, F.neg(y))
  }

  /** The point on the line of slope `t` through `P`, reflected: x = t² - x1 - x2. */
  function Chord<E(!new)>(F: Field<E>, t: E, P: Point<E>, x2: E): Point<E>
    requires P.Affine?
  {
    var x := F.Sub(F.Sub(F.Square(t), P.x), x2);
    Affine(x, F.Sub(F.mul(t, F.Sub(P.x, x)), P.y))
  }

  /** Three x squared plus a. */
  function Tangent<E(!new)>(F: Field<E>, a: E, x: E): E {
    F.add(F.add(F.Double(F.Square(x)), F.Square(x)), a)
  }

  function Doubled<E(!new, ==)>(F: Field<E>, a: E, P: Point<E>): Point<E> {
    if P.Infinity? || P.y == F.zero then Infinity
    else Chord(F, F.Divide(Tangent(F, a, P.x), F.Double(P.y)), P, P.x)
  }

  function Sum<E(!new, ==)>(F: Field<E>, a: E, P: Point<E>, Q: Point<E>): Point<E> {
    if P.Infinity? then Q
    else if Q.Infinity? then P
    else if P.x == Q.x then (if P.y == Q.y then Doubled(F, a, P) else Infinity)
    else Chord(F, F.Divide(F.Sub(Q.y, P.y), F.Sub(Q.x, P.x)), P, Q.x)
  }

  predicate OnCurve<E(!new, ==)>(F: Field<E>, a: E, b: E, P: Point<E>) {
    P.Infinity? || F.Square(P.y) == Cubic(F, a, b, P.x)
  }

  /** The group object of the curve; its inverses are cheap. */
  function CurveGroup<E(!new, ==)>(F: Field<E>, a: E, b: E): Group<Point<E>> {
    Group((P: Point<E>) => OnCurve(F, a, b, P), Infinity,
          (P: Point<E>, Q: Point<E>) => Sum(F, a, P, Q),
          (P: Point<E>) => Opposite(F, P), true)
  }

  /** What is taken from the theory of elliptic curves: sums are associative. */
  ghost predicate AssociativeSums<E(!new)>(F: Field<E>, a: E, b: E) {
    forall P, Q, R :: AssociativeLaw(CurveGroup(F, a, b), P, Q, R)
  }

  lemma DoubleIsSum<E(!new)>(F: Field<E>, a: E, P: Point<E>)
    ensures Sum(F, a, P, P) == Doubled(F, a, P)
  {}

  /** Twice (3, 5) on y² = x³ - 2 over the reals. */
  lemma RealDoubling()
    ensures OnCurve(Reals(), 0.0, -2.0, Affine(3.0, 5.0))
    ensures Sum(Reals(), 0.0, Affine(3.0, 5.0), Affine(3.0, 5.0)) == Affine(1.29, -0.383)
  {
    assert Tangent(Reals(), 0.0, 3.0) == 27.0 && Reals().Divide(27.0, 10.0) == 2.7;
  }

  lemma OppositeLaws<E(!new)>(F: Field<E>, a: E, b: E, P: Point<E>)
    requires IsField(F)
    ensures InverseLaws(CurveGroup(F, a, b), P)
  {
    if P.Affine? {
      var y := P.y;
      MulNeg(F, y, F.neg(y));
      MulNeg(F, y, y);
      NegNeg(F, F.mul(y, y));
      assert F.Square(F.neg(y)) == F.Square(y);
      if y == F.neg(y) {
        Laws1(F, y);
        DoubleIsZero(F, y);
      }
    }
  }

  /** The chord through two points does not depend on which is taken first. */
  lemma SumCommutes<E(!new)>(F: Field<E>, a: E, P: Point<E>, Q: Point<E>)
    requires IsField(F)
    ensures Sum(F, a, P, Q) == Sum(F, a, Q, P)
  {
    if P.Affine? && Q.Affine? && P.x != Q.x {
      var t := F.Divide(F.Sub(Q.y, P.y), F.Sub(Q.x, P.x));
      SlopeEitherWay(F, P.x, P.y, Q.x, Q.y);
      SubSwap(F, F.Square(t), P.x, Q.x);
      SameLine(F, t, P.x, P.y, Q.x, Q.y, F.Sub(F.Sub(F.Square(t), P.x), Q.x));
    }
  }

  lemma InvNeg<E(!new)>(F: Field<E>, a: E)
    requires IsField(F)
    ensures F.inv(F.neg(a)) == F.neg(F.inv(a))
  {
    NegNeg(F, a);
    if a != F.zero {
      MulNeg(F, a, F.neg(F.inv(a)));
      MulNeg(F, F.inv(a), a);
      Comm(F, F.inv(a), a);
      Laws1(F, a);
      NegNeg(F, F.one);
      InvUnique(F, F.neg(a), F.neg(F.inv(a)));
    }
  }

  /** The slope is the same from either end. */
  lemma SlopeEitherWay<E(!new)>(F: Field<E>, x1: E, y1: E, x2: E, y2: E)
    requires IsField(F)
    ensures F.Divide(F.Sub(y2, y1), F.Sub(x2, x1)) == F.Divide(F.Sub(y1, y2), F.Sub(x1, x2))
  {
    var dx, dy := F.Sub(x2, x1), F.Sub(y2, y1);
    NegAdd(F, x2, x1);
    NegAdd(F, y2, y1);
    InvNeg(F, dx);
    MulNeg(F, dy, F.neg(F.inv(dx)));
    MulNeg(F, F.inv(dx), dy);
    Comm(F, F.inv(dx), dy);
    NegNeg(F, F.mul(dy, F.inv(dx)));
  }

  lemma SubSwap<E(!new)>(F: Field<E>, s: E, a: E, b: E)
    requires IsField(F)
    ensures F.Sub(F.Sub(s, a), b) == F.Sub(F.Sub(s, b), a)
  {
    Assoc(F, s, F.neg(a), F.neg(b));
    Assoc(F, s, F.neg(b), F.neg(a));
    Comm(F, F.neg(a), F.neg(b));
  }

  /** t(x1 - x) - y1 == t(x2 - x) - y2, when t is the slope between the two. */
  lemma SameLine<E(!new)>(F: Field<E>, t: E, x1: E, y1: E, x2: E, y2: E, x: E)
    requires IsField(F) && x1 != x2 && t == F.Divide(F.Sub(y2, y1), F.Sub(x2, x1))
    ensures F.Sub(F.mul(t, F.Sub(x1, x)), y1) == F.Sub(F.mul(t, F.Sub(x2, x)), y2)
  {
    var dx, dy := F.Sub(x2, x1), F.Sub(y2, y1);
    SubZero(F, x2, x1);
    Assoc(F, dy, F.inv(dx), dx);
    Comm(F, F.inv(dx), dx);
    Laws1(F, dx);
    Laws1(F, dy);
    assert F.mul(t, dx) == dy;
    // x2 - x == (x1 - x) + dx and y2 == y1 + dy
    SubAdd(F, x2, x1);
    Comm(F, dx, x1);
    Assoc(F, x1, dx, F.neg(x));
    Comm(F, dx, F.neg(x));
    Assoc(F, x1, F.neg(x), dx);
    assert F.Sub(x2, x) == F.add(F.Sub(x1, x), dx);
    Distribute(F, t, F.Sub(x1, x), dx);
    var u := F.mul(t, F.Sub(x1, x));
    SubAdd(F, y2, y1);
    Comm(F, dy, y1);
    NegAdd(F, dy, y1);
    Interchange(F, u, dy, F.neg(dy), F.neg(y1));
    Comm(F, dy, F.neg(y1));
    Interchange(F, u, dy, F.neg(y1), F.neg(dy));
    Comm(F, F.neg(dy), F.neg(y1));
    Laws1(F, F.Sub(u, y1));
  }

  // ---------- Sums are on the curve ----------

  /** The chord's end is the reflected point of the line. */
  lemma ChordHeight<E(!new)>(F: Field<E>, t: E, P: Point<E>, x2: E)
    requires IsField(F) && P.Affine?
    ensures var R := Chord(F, t, P, x2); R.y == F.neg(Height(F, t, P.x, P.y, R.x))
  {
    var x := F.Sub(F.Sub(F.Square(t), P.x), x2);
    NegAdd(F, P.y, F.mul(t, F.Sub(x, P.x)));
    NegAdd(F, x, P.x);
    MulNeg(F, F.Sub(x, P.x), t);
    Comm(F, t, F.Sub(x, P.x));
    Comm(F, F.neg(P.y), F.mul(t, F.Sub(P.x, x)));
  }

  lemma ChordOnCurve<E(!new)>(F: Field<E>, a: E, b: E, t: E, P: Point<E>, x2: E)
    requires IsField(F) && P.Affine? && OnCurve(F, a, b, P) && Meets(F, a, t, P.x, P.y, x2)
    ensures OnCurve(F, a, b, Chord(F, t, P, x2))
  {
    var x := F.Sub(F.Sub(F.Square(t), P.x), x2);
    ThirdPoint(F, a, t, P.x, P.y, x2);
    MeetsCubic(F, a, b, t, P.x, P.y, x);
    ChordHeight(F, t, P, x2);
    SquareOfNeg(F, Height(F, t, P.x, P.y, x));
  }

  lemma SquareOfNeg<E(!new)>(F: Field<E>, y: E)
    requires IsField(F)
    ensures F.Square(F.neg(y)) == F.Square(y)
  {
    MulNeg(F, y, F.neg(y));
    MulNeg(F, y, y);
    NegNeg(F, F.Square(y));
  }

  /** A quotient times its divisor. */
  lemma DivideBack<E(!new)>(F: Field<E>, n: E, d: E)
    requires IsField(F) && d != F.zero
    ensures F.mul(F.Divide(n, d), d) == n
  {
    Assoc(F, n, F.inv(d), d);
    Comm(F, F.inv(d), d);
    Laws1(F, d);
    Laws1(F, n);
  }

  /** The slope of the code leads from one point to the other. */
  lemma SlopeLeads<E(!new)>(F: Field<E>, P: Point<E>, Q: Point<E>)
    requires IsField(F) && P.Affine? && Q.Affine? && P.x != Q.x
    ensures Height(F, F.Divide(F.Sub(Q.y, P.y), F.Sub(Q.x, P.x)), P.x, P.y, Q.x) == Q.y
  {
    SubZero(F, Q.x, P.x);
    DivideBack(F, F.Sub(Q.y, P.y), F.Sub(Q.x, P.x));
    SubAdd(F, Q.y, P.y);
    Comm(F, P.y, F.Sub(Q.y, P.y));
  }

  /** The tangent meets the curve twice at its point. */
  lemma TangentMeets<E(!new)>(F: Field<E>, a: E, P: Point<E>)
    requires IsField(F) && P.Affine? && P.y != F.zero
    ensures Meets(F, a, F.Divide(Tangent(F, a, P.x), F.Double(P.y)), P.x, P.y, P.x)
  {
    var t, x2 := F.Divide(Tangent(F, a, P.x), F.Double(P.y)), F.Square(P.x);
    DoubleIsZero(F, P.y);
    DivideBack(F, Tangent(F, a, P.x), F.Double(P.y));
    SubZero(F, P.x, P.x);
    MulZero(F, F.Square(t));
    Laws1(F, Tangent(F, a, P.x));
    // (2x² + x²) + a == (x² + a) + x(x + x)
    Distribute(F, P.x, P.x, P.x);
    Assoc(F, F.Double(x2), x2, a);
    Comm(F, F.Double(x2), F.add(x2, a));
  }

  /** Sums stay on the curve, in every field of odd characteristic. */
  lemma SumOnCurve<E(!new)>(F: Field<E>, a: E, b: E, P: Point<E>, Q: Point<E>)
    requires IsField(F) && OnCurve(F, a, b, P) && OnCurve(F, a, b, Q)
    ensures OnCurve(F, a, b, Sum(F, a, P, Q))
  {
    if P.Affine? && Q.Affine? {
      if P.x != Q.x {
        var t := F.Divide(F.Sub(Q.y, P.y), F.Sub(Q.x, P.x));
        SlopeLeads(F, P, Q);
        MeetsCubic(F, a, b, t, P.x, P.y, Q.x);
        ChordOnCurve(F, a, b, t, P, Q.x);
      } else if P.y == Q.y && P.y != F.zero {
        TangentMeets(F, a, P);
        ChordOnCurve(F, a, b, F.Divide(Tangent(F, a, P.x), F.Double(P.y)), P, P.x);
      }
    }
  }

  /** Two points with different x and their sum, reflected, are all the points that the curve has on their
      line; the tangent has its point and the double, reflected. */
  lemma PointsOnLine<E(!new)>(F: Field<E>, a: E, b: E, P: Point<E>, Q: Point<E>, R: Point<E>)
    requires IsField(F) && OnCurve(F, a, b, P) && OnCurve(F, a, b, Q) && OnCurve(F, a, b, R)
    requires P.Affine? && Q.Affine? && R.Affine? && Sum(F, a, P, Q).Affine?
    requires var t := if P.x != Q.x then F.Divide(F.Sub(Q.y, P.y), F.Sub(Q.x, P.x))
                      else F.Divide(Tangent(F, a, P.x), F.Double(P.y));
             R.y == Height(F, t, P.x, P.y, R.x)
    ensures R == P || R == Q || R == Opposite(F, Sum(F, a, P, Q))
  {
    var t := if P.x != Q.x then F.Divide(F.Sub(Q.y, P.y), F.Sub(Q.x, P.x))
             else F.Divide(Tangent(F, a, P.x), F.Double(P.y));
    if P.x != Q.x {
      SlopeLeads(F, P, Q);
      MeetsCubic(F, a, b, t, P.x, P.y, Q.x);
    } else {
      TangentMeets(F, a, P);
    }
    if R.x == P.x {
      HeightAt(F, t, P.x, P.y);
    } else if R.x != Q.x {
      MeetsCubic(F, a, b, t, P.x, P.y, R.x);
      OnlyThirdPoint(F, a, t, P.x, P.y, Q.x, R.x);
      ChordHeight(F, t, P, Q.x);
      NegNeg(F, R.y);
    }
  }

  lemma HeightAt<E(!new)>(F: Field<E>, t: E, z: E, y: E)
    requires IsField(F)
    ensures Height(F, t, z, y, z) == y
  {
    SubZero(F, z, z);
    MulZero(F, t);
    Laws1(F, y);
  }

  // ---------- Subtracting again ----------

  /** From the chord's end back along the reflected line, whose slope is the opposite one. */
  lemma ChordBack<E(!new)>(F: Field<E>, t: E, P: Point<E>, Q: Point<E>)
    requires IsField(F) && P.Affine? && Q.Affine? && Q.y == Height(F, t, P.x, P.y, Q.x)
    requires Chord(F, t, P, Q.x).x != Q.x
    ensures var R := Chord(F, t, P, Q.x);
            var back := F.Divide(F.Sub(F.neg(Q.y), R.y), F.Sub(Q.x, R.x));
            back == F.neg(t) && Chord(F, back, R, Q.x) == P
  {
    var R := Chord(F, t, P, Q.x);
    ChordHeight(F, t, P, Q.x);
    SlopeBack(F, t, P, Q, R);
    var back := F.neg(t);
    // x: t² - ((t² - z) - x2) - x2 == z
    SquareOfNeg(F, t);
    EndsAt(F, F.Square(t), P.x, Q.x);
    // y: -t(R.x - z) - R.y == y
    var m := F.mul(t, F.Sub(R.x, P.x));
    MulNeg(F, t, F.Sub(R.x, P.x));
    NegNeg(F, Height(F, t, P.x, P.y, R.x));
    Comm(F, F.neg(m), F.add(P.y, m));
    SubAdd(F, P.y, m);
  }

  lemma SlopeBack<E(!new)>(F: Field<E>, t: E, P: Point<E>, Q: Point<E>, R: Point<E>)
    requires IsField(F) && P.Affine? && Q.Affine? && R.Affine? && Q.y == Height(F, t, P.x, P.y, Q.x)
    requires R.y == F.neg(Height(F, t, P.x, P.y, R.x)) && R.x != Q.x
    ensures F.Divide(F.Sub(F.neg(Q.y), R.y), F.Sub(Q.x, R.x)) == F.neg(t)
  {
    var hq, hr, d := Q.y, Height(F, t, P.x, P.y, R.x), F.Sub(R.x, Q.x);
    // -hq - (-hr) == hr - hq == t(R.x - Q.x)
    NegNeg(F, hr);
    Comm(F, F.neg(hq), hr);
    HeightDifference(F, t, P.x, P.y, R.x, Q.x);
    NegAdd(F, R.x, Q.x);
    InvNeg(F, d);
    SubZero(F, R.x, Q.x);
    // t·d·(-1/d) == -t
    Assoc(F, t, d, F.neg(F.inv(d)));
    MulNeg(F, F.inv(d), d);
    Comm(F, F.inv(d), d);
    Laws1(F, d);
    MulNeg(F, F.one, t);
    Laws1(F, t);
  }

  lemma HeightDifference<E(!new)>(F: Field<E>, t: E, z: E, y: E, x: E, w: E)
    requires IsField(F)
    ensures F.Sub(Height(F, t, z, y, x), Height(F, t, z, y, w)) == F.mul(t, F.Sub(x, w))
  {
    Comm(F, y, F.mul(t, F.Sub(x, z)));
    Comm(F, y, F.mul(t, F.Sub(w, z)));
    SubCommon(F, F.mul(t, F.Sub(x, z)), F.mul(t, F.Sub(w, z)), y);
    DistributeSub(F, t, F.Sub(x, z), F.Sub(w, z));
    SubCommon(F, x, w, F.neg(z));
  }

  /** (s - ((s - z) - x)) - x == z */
  lemma EndsAt<E(!new)>(F: Field<E>, s: E, z: E, x: E)
    requires IsField(F)
    ensures F.Sub(F.Sub(s, F.Sub(F.Sub(s, z), x)), x) == z
  {
    var u := F.Sub(s, z);
    NegAdd(F, u, x);
    // s - (u - x) == s + (x - u)
    SubAdd(F, s, z);
    SubAdd(F, u, x);
    Assoc(F, s, x, F.neg(u));
    Comm(F, s, x);
    Assoc(F, x, s, F.neg(u));
    // x + (s - u), less x
    Comm(F, x, F.Sub(s, u));
    SubAdd(F, F.Sub(s, u), x);
    Comm(F, u, z);
    SubAdd(F, z, u);
  }

  /** What has been added can be subtracted again, also from a double. */
  lemma SumAndBack<E(!new)>(F: Field<E>, a: E, P: Point<E>, Q: Point<E>)
    requires IsField(F) && P.Affine? && Q.Affine? && (P.x != Q.x || P == Q)
    requires Sum(F, a, P, Q).Affine? && Sum(F, a, P, Q).x != Q.x
    ensures Sum(F, a, Sum(F, a, P, Q), Opposite(F, Q)) == P
  {
    if P.x != Q.x {
      SlopeLeads(F, P, Q);
      ChordBack(F, F.Divide(F.Sub(Q.y, P.y), F.Sub(Q.x, P.x)), P, Q);
    } else {
      var t := F.Divide(Tangent(F, a, P.x), F.Double(P.y));
      HeightAt(F, t, P.x, P.y);
      ChordBack(F, t, P, Q);
    }
  }

  /** A field with a curve over it whose sums are associative. */
  ghost predicate IsCurve<E(!new)>(F: Field<E>, a: E, b: E) {
    IsField(F) && AssociativeSums(F, a, b)
  }

  /** With associativity, the code's operations make an abelian group. */
  lemma CurveIsAbelian<E(!new)>(F: Field<E>, a: E, b: E)
    requires IsCurve(F, a, b)
    ensures IsAbelian(CurveGroup(F, a, b))
  {
    var G := CurveGroup(F, a, b);
    forall P ensures InverseLaws(G, P) { OppositeLaws(F, a, b, P); }
    forall P, Q ensures CommutativeLaws(G, P, Q) {
      SumCommutes(F, a, P, Q);
      if G.elem(P) && G.elem(Q) { SumOnCurve(F, a, b, P, Q); }
    }
  }

  // ---------- A curve there is ----------

  /** The integers modulo three. */
  datatype Trit = Zero | One | Two

  function Add3(a: Trit, b: Trit): Trit {
    match a
    case Zero => b
    case One => (match b case Zero => One case One => Two case Two => Zero)
    case Two => (match b case Zero => Two case One => Zero case Two => One)
  }

  function Neg3(a: Trit): Trit {
    match a case Zero => Zero case One => Two case Two => One
  }

  function Mul3(a: Trit, b: Trit): Trit {
    match a case Zero => Zero case One => b case Two => Neg3(b)
  }

  /** Every element is its own inverse, and half an element is its opposite. */
  function Mod3(): Field<Trit> {
    Field(Zero, One, Add3, Neg3, Mul3, (a: Trit) => a, Neg3)
  }

  lemma Mod3IsField()
    ensures IsField(Mod3())
  {
    forall a ensures UnaryLaws(Mod3(), a) {}
    forall a, b ensures BinaryLaws(Mod3(), a, b) {}
    forall a, b, c ensures TernaryLaws(Mod3(), a, b, c) {}
  }

  /** The curve y² = x³ - x + 1 over it has seven points: y is 1 or -1 for every x. */
  predicate OnSmallCurve(P: Point<Trit>) {
    P.Infinity? || P.y != Zero
  }

  lemma SmallCurvePoints(P: Point<Trit>)
    ensures OnCurve(Mod3(), Two, One, P) <==> OnSmallCurve(P)
  {
    assert Cubic(Mod3(), Two, One, Zero) == Cubic(Mod3(), Two, One, One) == Cubic(Mod3(), Two, One, Two) == One;
  }

  /** They are the multiples of (0, 1), in this order. */
  function PointAt(k: nat): Point<Trit>
    requires k < 7
  {
    match k
    case 0 => Infinity
    case 1 => Affine(Zero, One)
    case 2 => Affine(One, One)
    case 3 => Affine(Two, Two)
    case 4 => Affine(Two, One)
    case 5 => Affine(One, Two)
    case _ => Affine(Zero, Two)
  }

  function IndexOf(P: Point<Trit>): (k: nat)
    requires OnSmallCurve(P)
    ensures k < 7 && PointAt(k) == P
  {
    match P
    case Infinity => 0
    case Affine(Zero, y) => if y == One then 1 else 6
    case Affine(One, y) => if y == One then 2 else 5
    case Affine(Two, y) => if y == Two then 3 else 4
  }

  function AddedMod7(i: nat, j: nat): (k: nat)
    requires i < 7 && j < 7
    ensures k < 7
  {
    if i + j < 7 then i + j else i + j - 7
  }

  /** Adding them is adding their indices modulo seven. */
  lemma SmallCurveSums(i: nat, j: nat)
    requires i < 7 && j < 7
    ensures Sum(Mod3(), Two, PointAt(i), PointAt(j)) == PointAt(AddedMod7(i, j))
  {}

  lemma IndicesAssociate(i: nat, j: nat, k: nat)
    requires i < 7 && j < 7 && k < 7
    ensures Sum(Mod3(), Two, Sum(Mod3(), Two, PointAt(i), PointAt(j)), PointAt(k))
         == Sum(Mod3(), Two, PointAt(i), Sum(Mod3(), Two, PointAt(j), PointAt(k)))
  {
    SmallCurveSums(i, j);
    SmallCurveSums(j, k);
    SmallCurveSums(AddedMod7(i, j), k);
    SmallCurveSums(i, AddedMod7(j, k));
    hide PointAt, Sum;
  }

  lemma SmallCurveAssociates(P: Point<Trit>, Q: Point<Trit>, R: Point<Trit>)
    ensures AssociativeLaw(CurveGroup(Mod3(), Two, One), P, Q, R)
  {
    SmallCurvePoints(P);
    SmallCurvePoints(Q);
    SmallCurvePoints(R);
    if OnSmallCurve(P) && OnSmallCurve(Q) && OnSmallCurve(R) {
      IndicesAssociate(IndexOf(P), IndexOf(Q), IndexOf(R));
      hide PointAt, Sum, OnSmallCurve, OnCurve;
    }
  }

  /** So what is assumed of curves can be met. */
  lemma SmallCurveIsCurve()
    ensures IsCurve(Mod3(), Two, One)
  {
    Mod3IsField();
    var G := CurveGroup(Mod3(), Two, One);
    forall P, Q, R ensures AssociativeLaw(G, P, Q, R) {
      SmallCurveAssociates(P, Q, R);
    }
  }
}
