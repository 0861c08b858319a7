/** The greatest common divisor and the inverse modulo m, by the Euclidean algorithm over three
    rotating registers (algebra.cpp, AbstractEuclideanDomain::Gcd and
    QuotientRing::MultiplicativeInverse, over the integers). */
module Euclid {

  ghost predicate Divides(d: int, n: int) {
    exists k :: n == k * d
  }

  ghost predicate CommonDivisor(d: int, a: int, b: int) {
    Divides(d, a) && Divides(d, b)
  }

  /** A common divisor that every other common divisor divides. */
  ghost predicate IsGcd(g: int, a: int, b: int) {
    CommonDivisor(g, a, b) && forall d :: CommonDivisor(d, a, b) ==> Divides(d, g)
  }

  ghost predicate Coprime(a: int, b: int) {
    forall d :: CommonDivisor(d, a, b) ==> d == 1 || d == -1
  }

  ghost predicate SameDivisors(a: int, b: int, a': int, b': int) {
    forall d :: CommonDivisor(d, a, b) <==> CommonDivisor(d, a', b')
  }

  lemma DividesCombination(d: int, a: int, b: int, x: int, y: int)
    requires CommonDivisor(d, a, b)
    ensures Divides(d, x * a + y * b)
  {
    var j :| a == j * d;
    var k :| b == k * d;
    CombineFactors(x, j, y, k, d);
  }

  lemma CombineFactors(x: int, j: int, y: int, k: int, d: int)
    ensures x * (j * d) + y * (k * d) == (x * j + y * k) * d
  {}

  lemma Trivially(d: int)
    ensures Divides(d, d) && Divides(d, 0) && Divides(1, d)
  {
    assert d == 1 * d && 0 == 0 * d && d == d * 1;
  }

  /** A division step keeps the common divisors. */
  lemma StepKeepsDivisors(a: int, b: int)
    requires b != 0
    ensures SameDivisors(a, b, b, a % b)
  {
    var q, r := a / b, a % b;
    assert r == 1 * a + (-q) * b && a == q * b + 1 * r;
    forall d ensures CommonDivisor(d, a, b) <==> CommonDivisor(d, b, r) {
      if CommonDivisor(d, a, b) {
        DividesCombination(d, a, b, 1, -q);
      }
      if CommonDivisor(d, b, r) {
        DividesCombination(d, b, r, q, 1);
      }
    }
  }

  lemma GcdWithZero(g: int, a: int, b: int)
    requires SameDivisors(a, b, g, 0)
    ensures IsGcd(g, a, b)
  {
    Trivially(g);
  }

  method Gcd(a: int, b: int) returns (result: int)
    ensures IsGcd(result, a, b)
  {
    var g := new int[3][b, a, 0];
    var i0, i1, i2 := 0, 1, 2;
    while g[i1] != 0
      invariant {i0, i1, i2} == {0, 1, 2}
      invariant 0 <= i0 < 3 && 0 <= i1 < 3 && 0 <= i2 < 3 && i0 != i1 && i1 != i2 && i0 != i2
      invariant SameDivisors(a, b, g[i0], g[i1])
      invariant g[i1] >= 0 || g[i1] == a
      decreases if g[i1] < 0 then -g[i1] else g[i1]
    {
      StepKeepsDivisors(g[i0], g[i1]);
      hide SameDivisors;
      SameTransitive(a, b, g[i0], g[i1], g[i0] % g[i1]);
      g[i2] := g[i0] % g[i1];
      i0, i1, i2 := i1, i2, i0;
    }
    GcdWithZero(g[i0], a, b);
    return g[i0];
  }

  lemma SameTransitive(a: int, b: int, x: int, y: int, z: int)
    requires SameDivisors(a, b, x, y) && SameDivisors(x, y, y, z)
    ensures SameDivisors(a, b, y, z)
  {}

  /** x·a is one modulo m. */
  ghost predicate IsInverse(x: int, a: int, m: int)
    requires m > 1
  {
    x * a % m == 1
  }

  /** Only numbers coprime to the modulus have an inverse. */
  lemma InverseNeedsCoprime(x: int, a: int, m: int)
    requires m > 1 && IsInverse(x, a, m)
    ensures Coprime(a, m)
  {
    var k := x * a / m;
    forall d | CommonDivisor(d, a, m) ensures d == 1 || d == -1 {
      DividesCombination(d, a, m, x, -k);
      assert x * a + (-k) * m == 1;
      var j :| 1 == j * d;
      UnitFactor(j, d);
    }
  }

  lemma UnitFactor(j: int, d: int)
    requires j * d == 1
    ensures d == 1 || d == -1
  {
    assert j >= 1 && d >= 2 ==> j * d >= 1 * 2;
    assert j <= -1 && d <= -2 ==> (-j) * (-d) >= 1 * 2;
    assert j >= 1 && d <= -1 ==> j * (-d) >= 0;
    assert j <= -1 && d >= 1 ==> (-j) * d >= 0;
  }

  /** g == v·a + u·m: the register pair (g, v) stands for v·a modulo m. */
  ghost predicate Represents(g: int, v: int, u: int, a: int, m: int) {
    g == v * a + u * m
  }

  lemma RepresentsStep(g0: int, v0: int, u0: int, g1: int, v1: int, u1: int, y: int, a: int, m: int)
    requires Represents(g0, v0, u0, a, m) && Represents(g1, v1, u1, a, m)
    ensures Represents(g0 - y * g1, v0 - v1 * y, u0 - u1 * y, a, m)
  {
    calc {
      (v0 - v1 * y) * a + (u0 - u1 * y) * m;
      v0 * a - (v1 * y) * a + u0 * m - (u1 * y) * m;
      v0 * a + u0 * m - y * (v1 * a + u1 * m);
    }
  }

  lemma RepresentsOne(v: int, u: int, a: int, m: int)
    requires m > 1 && Represents(1, v, u, a, m)
    ensures IsInverse(v, a, m)
  {
    RemainderUnique(v * a, m, -u, 1);
  }

  lemma RemainderUnique(n: int, m: int, q: int, r: int)
    requires n == q * m + r && 0 <= r < m
    ensures n % m == r
  {
    var d := n / m - q;
    assert d * m == r - n % m;
    assert (d >= 1 ==> d * m >= m) && (d <= -1 ==> d * m <= -m);
  }

  lemma CoprimeSymmetric(a: int, b: int)
    ensures Coprime(a, b) <==> Coprime(b, a)
  {
    assert forall d :: CommonDivisor(d, a, b) <==> CommonDivisor(d, b, a);
  }

  /** A gcd of one is what coprime means. */
  lemma UnitGcd(g: int, a: int, m: int)
    requires g > 0 && IsGcd(g, a, m)
    ensures g == 1 <==> Coprime(a, m)
  {
    if g == 1 {
      forall d | CommonDivisor(d, a, m) ensures d == 1 || d == -1 {
        var j :| 1 == j * d;
        UnitFactor(j, d);
      }
    }
  }

  /** Two consecutive remainders (g0, g1), what each represents, and the common divisors kept. */
  ghost predicate Live(a: int, m: int, g0: int, v0: int, u0: int, g1: int, v1: int, u1: int) {
    && SameDivisors(m, a, g0, g1)
    && 0 < g0 && 0 <= g1 < m
    && Represents(g0, v0, u0, a, m) && Represents(g1, v1, u1, a, m)
  }

  lemma LiveStart(a: int, m: int)
    requires m > 1 && 0 <= a < m
    ensures Live(a, m, m, 0, 1, a, 1, 0)
  {}

  lemma LiveStep(a: int, m: int, g0: int, v0: int, u0: int, g1: int, v1: int, u1: int)
    requires Live(a, m, g0, v0, u0, g1, v1, u1) && g1 != 0
    ensures Live(a, m, g1, v1, u1, g0 % g1, v0 - v1 * (g0 / g1), u0 - u1 * (g0 / g1))
  {
    StepKeepsDivisors(g0, g1);
    SameTransitive(m, a, g0, g1, g0 % g1);
    RepresentsStep(g0, v0, u0, g1, v1, u1, g0 / g1, a, m);
  }

  lemma GuardIsZeroTest(g: int, m: int)
    requires 0 <= g < m
    ensures g % m == 0 <==> g == 0
  {
    RemainderUnique(g, m, 0, g);
  }

  /** The value returned is an inverse if and only if there is one. */
  ghost predicate Answers(result: int, a: int, m: int)
    requires m > 1
  {
    && (IsInverse(result, a, m) <==> Coprime(a, m))
    && (!Coprime(a, m) ==> result == 0 && forall x :: !IsInverse(x, a, m))
  }

  lemma LiveEnd(a: int, m: int, g0: int, v0: int, u0: int, v1: int, u1: int)
    requires m > 1 && Live(a, m, g0, v0, u0, 0, v1, u1)
    ensures Answers(if g0 == 1 then v0 else 0, a, m)
  {
    GcdWithZero(g0, m, a);
    UnitGcd(g0, m, a);
    CoprimeSymmetric(a, m);
    if g0 == 1 {
      RepresentsOne(v0, u0, a, m);
    } else {
      forall x ensures !IsInverse(x, a, m) {
        if IsInverse(x, a, m) {
          InverseNeedsCoprime(x, a, m);
          assert false;
        }
      }
    }
  }

  /** The inverse of `a` modulo `m` when the two are coprime; zero, and no inverse at all, when
      they are not. */
  method MultiplicativeInverse(a: int, m: int) returns (result: int)
    requires m > 1 && 0 <= a < m
    ensures IsInverse(result, a, m) <==> Coprime(a, m)
    ensures !Coprime(a, m) ==> result == 0 && forall x :: !IsInverse(x, a, m)
  {
    var g := new int[3][m, a, 0];
    var v := new int[3][0, 1, 0];
    ghost var u0, u1 := 1, 0;
    var i0, i1, i2 := 0, 1, 2;
    LiveStart(a, m);
    while g[i1] % m != 0
      invariant 0 <= i0 < 3 && 0 <= i1 < 3 && 0 <= i2 < 3 && i0 != i1 && i1 != i2 && i0 != i2
      invariant Live(a, m, g[i0], v[i0], u0, g[i1], v[i1], u1)
      decreases g[i1]
    {
      GuardIsZeroTest(g[i1], m);
      LiveStep(a, m, g[i0], v[i0], u0, g[i1], v[i1], u1);
      hide Live, Answers;
      var y := g[i0] / g[i1];
      g[i2] := g[i0] % g[i1];
      v[i2] := v[i0] - v[i1] * y;
      u0, u1 := u1, u0 - u1 * y;
      i0, i1, i2 := i1, i2, i0;
    }
    GuardIsZeroTest(g[i1], m);
    LiveEnd(a, m, g[i0], v[i0], u0, v[i1], u1);
    return if g[i0] == 1 then v[i0] else 0;
  }
}
