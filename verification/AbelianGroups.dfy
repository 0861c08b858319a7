/** Abelian groups as values, multiples of an element, and sums of multiples.

    A group carries its own carrier set, so the points of a curve inside a larger type of
    coordinate pairs are a group too. The laws are named predicates, which keeps the verifier
    from applying associativity and commutativity where no lemma asks for them. */
module AbelianGroups {

  datatype Group<!T(!new)> = Group(
    elem: T -> bool,
    zero: T,
    add: (T, T) -> T,
    neg: T -> T,
    inversionIsFast: bool)

  ghost predicate InverseLaws<T(!new)>(G: Group<T>, a: T) {
    G.elem(a) ==> G.elem(G.neg(a)) && G.add(a, G.zero) == a && G.add(a, G.neg(a)) == G.zero
  }

  ghost predicate CommutativeLaws<T(!new)>(G: Group<T>, a: T, b: T) {
    G.elem(a) && G.elem(b) ==> G.elem(G.add(a, b)) && G.add(a, b) == G.add(b, a)
  }

  ghost predicate AssociativeLaw<T(!new)>(G: Group<T>, a: T, b: T, c: T) {
    G.elem(a) && G.elem(b) && G.elem(c) ==> G.add(G.add(a, b), c) == G.add(a, G.add(b, c))
  }

  /** The axioms of an abelian group on the carrier. */
  ghost predicate IsAbelian<T(!new)>(G: Group<T>) {
    && G.elem(G.zero)
    && (forall a :: InverseLaws(G, a))
    && (forall a, b :: CommutativeLaws(G, a, b))
    && (forall a, b, c :: AssociativeLaw(G, a, b, c))
  }

  lemma NegIn<T(!new)>(G: Group<T>, a: T)
    requires IsAbelian(G) && G.elem(a)
    ensures G.elem(G.neg(a)) && G.add(a, G.neg(a)) == G.zero && G.add(G.neg(a), a) == G.zero
  {
    assert InverseLaws(G, a);
    assert CommutativeLaws(G, a, G.neg(a));
  }

  lemma AddIn<T(!new)>(G: Group<T>, a: T, b: T)
    requires IsAbelian(G) && G.elem(a) && G.elem(b)
    ensures G.elem(G.add(a, b)) && G.add(a, b) == G.add(b, a)
  {
    assert CommutativeLaws(G, a, b);
  }

  lemma AddZero<T(!new)>(G: Group<T>, a: T)
    requires IsAbelian(G) && G.elem(a)
    ensures G.add(a, G.zero) == a && G.add(G.zero, a) == a
  {
    assert InverseLaws(G, a);
    assert CommutativeLaws(G, a, G.zero);
  }

  lemma AddAssoc<T(!new)>(G: Group<T>, a: T, b: T, c: T)
    requires IsAbelian(G) && G.elem(a) && G.elem(b) && G.elem(c)
    ensures G.add(G.add(a, b), c) == G.add(a, G.add(b, c))
  {
    assert AssociativeLaw(G, a, b, c);
  }

  /** (a + b) + (c + d) == (a + c) + (b + d) */
  lemma AddInterchange<T(!new)>(G: Group<T>, a: T, b: T, c: T, d: T)
    requires IsAbelian(G) && G.elem(a) && G.elem(b) && G.elem(c) && G.elem(d)
    ensures G.add(G.add(a, b), G.add(c, d)) == G.add(G.add(a, c), G.add(b, d))
  {
    AddIn(G, a, c); AddIn(G, b, d); AddIn(G, c, d); AddIn(G, b, c);
    calc {
      G.add(G.add(a, b), G.add(c, d));
      { AddAssoc(G, a, b, G.add(c, d)); }
      G.add(a, G.add(b, G.add(c, d)));
      { AddAssoc(G, b, c, d); AddAssoc(G, c, b, d); }
      G.add(a, G.add(c, G.add(b, d)));
      { AddAssoc(G, a, c, G.add(b, d)); }
      G.add(G.add(a, c), G.add(b, d));
    }
  }

  lemma InverseUnique<T(!new)>(G: Group<T>, a: T, b: T)
    requires IsAbelian(G) && G.elem(a) && G.elem(b) && G.add(a, b) == G.zero
    ensures b == G.neg(a)
  {
    NegIn(G, a);
    AddAssoc(G, G.neg(a), a, b);
    AddZero(G, b);
    AddZero(G, G.neg(a));
  }

  /** The k-fold sum of `a`; for negative `k`, of its inverse. This is what every scalar
      multiplication is measured against. */
  ghost function Multiple<T(!new)>(G: Group<T>, k: int, a: T): T
    decreases if k < 0 then -k else k
  {
    if k == 0 then G.zero
    else if k > 0 then G.add(Multiple(G, k - 1, a), a)
    else G.add(Multiple(G, k + 1, a), G.neg(a))
  }

  lemma {:induction false} MultipleIn<T(!new)>(G: Group<T>, k: int, a: T)
    requires IsAbelian(G) && G.elem(a)
    ensures G.elem(Multiple(G, k, a))
    decreases if k < 0 then -k else k
  {
    if k > 0 {
      MultipleIn(G, k - 1, a);
      AddIn(G, Multiple(G, k - 1, a), a);
    } else if k < 0 {
      MultipleIn(G, k + 1, a);
      NegIn(G, a);
      AddIn(G, Multiple(G, k + 1, a), G.neg(a));
    }
  }

  lemma MultipleOne<T(!new)>(G: Group<T>, a: T)
    requires IsAbelian(G) && G.elem(a)
    ensures Multiple(G, 1, a) == a
  {
    AddZero(G, a);
    assert Multiple(G, 0, a) == G.zero;
  }

  lemma MultipleStep<T(!new)>(G: Group<T>, k: int, a: T)
    requires IsAbelian(G) && G.elem(a)
    ensures Multiple(G, k + 1, a) == G.add(Multiple(G, k, a), a)
  {
    if k < 0 {
      var m := Multiple(G, k + 1, a);
      MultipleIn(G, k + 1, a);
      NegIn(G, a);
      AddAssoc(G, m, G.neg(a), a);
      AddZero(G, m);
    }
  }

  /** Exponents add. */
  lemma {:induction false} MultipleAdd<T(!new)>(G: Group<T>, j: int, k: int, a: T)
    requires IsAbelian(G) && G.elem(a)
    ensures G.add(Multiple(G, j, a), Multiple(G, k, a)) == Multiple(G, j + k, a)
    decreases if k < 0 then -k else k
  {
    var m := Multiple(G, j, a);
    MultipleIn(G, j, a);
    if k == 0 {
      AddZero(G, m);
    } else if k > 0 {
      MultipleAdd(G, j, k - 1, a);
      MultipleIn(G, k - 1, a);
      AddAssoc(G, m, Multiple(G, k - 1, a), a);
      MultipleStep(G, j + k - 1, a);
    } else {
      MultipleAdd(G, j, k + 1, a);
      MultipleIn(G, k + 1, a);
      MultipleIn(G, j + k, a);
      NegIn(G, a);
      AddAssoc(G, m, Multiple(G, k + 1, a), G.neg(a));
      MultipleStep(G, j + k, a);
      AddAssoc(G, Multiple(G, j + k, a), a, G.neg(a));
      AddZero(G, Multiple(G, j + k, a));
    }
  }

  lemma MultipleNeg<T(!new)>(G: Group<T>, k: int, a: T)
    requires IsAbelian(G) && G.elem(a)
    ensures G.neg(Multiple(G, k, a)) == Multiple(G, -k, a)
  {
    MultipleIn(G, k, a);
    MultipleIn(G, -k, a);
    MultipleAdd(G, k, -k, a);
    InverseUnique(G, Multiple(G, k, a), Multiple(G, -k, a));
  }

  /** Exponents multiply. */
  lemma {:induction false} MultipleMultiple<T(!new)>(G: Group<T>, j: nat, k: int, a: T)
    requires IsAbelian(G) && G.elem(a)
    ensures Multiple(G, j, Multiple(G, k, a)) == Multiple(G, j * k, a)
  {
    if j > 0 {
      MultipleMultiple(G, j - 1, k, a);
      MultipleAdd(G, (j - 1) * k, k, a);
      assert (j - 1) * k + k == j * k;
    } else {
      assert j * k == 0;
    }
  }

  /** Multiples distribute over sums. */
  lemma {:induction false} MultipleOfSum<T(!new)>(G: Group<T>, k: nat, a: T, b: T)
    requires IsAbelian(G) && G.elem(a) && G.elem(b)
    ensures G.elem(G.add(a, b))
    ensures Multiple(G, k, G.add(a, b)) == G.add(Multiple(G, k, a), Multiple(G, k, b))
  {
    AddIn(G, a, b);
    if k == 0 {
      AddZero(G, G.zero);
    } else {
      MultipleOfSum(G, k - 1, a, b);
      MultipleIn(G, k - 1, a);
      MultipleIn(G, k - 1, b);
      AddInterchange(G, Multiple(G, k - 1, a), Multiple(G, k - 1, b), a, b);
    }
  }

  /** The multiple of an inverse is the negated multiple. */
  lemma MultipleOfNeg<T(!new)>(G: Group<T>, k: nat, a: T)
    requires IsAbelian(G) && G.elem(a)
    ensures G.elem(G.neg(a)) && Multiple(G, k, G.neg(a)) == Multiple(G, 0 - k, a)
  {
    NegIn(G, a);
    MultipleOne(G, a);
    MultipleNeg(G, 1, a);
    MultipleMultiple(G, k, -1, a);
  }

  /** i·x + j·y */
  ghost function Combination<T(!new)>(G: Group<T>, i: int, x: T, j: int, y: T): T {
    G.add(Multiple(G, i, x), Multiple(G, j, y))
  }

  lemma CombinationAdd<T(!new)>(G: Group<T>, i: int, j: int, i': int, j': int, x: T, y: T)
    requires IsAbelian(G) && G.elem(x) && G.elem(y)
    ensures G.add(Combination(G, i, x, j, y), Combination(G, i', x, j', y))
         == Combination(G, i + i', x, j + j', y)
  {
    MultipleIn(G, i, x); MultipleIn(G, j, y); MultipleIn(G, i', x); MultipleIn(G, j', y);
    AddInterchange(G, Multiple(G, i, x), Multiple(G, j, y), Multiple(G, i', x), Multiple(G, j', y));
    MultipleAdd(G, i, i', x);
    MultipleAdd(G, j, j', y);
  }

  lemma CombinationUnits<T(!new)>(G: Group<T>, x: T, y: T)
    requires IsAbelian(G) && G.elem(x) && G.elem(y)
    ensures Combination(G, 1, x, 0, y) == x
    ensures Combination(G, 0, x, 1, y) == y
    ensures Combination(G, 0, x, 0, y) == G.zero
  {
    MultipleOne(G, x);
    MultipleOne(G, y);
    AddZero(G, x);
    AddZero(G, y);
    AddZero(G, G.zero);
  }

  /** A base with the exponent it is to be multiplied by. */
  datatype BaseAndExponent<T> = BaseAndExponent(base: T, exponent: nat)

  predicate BasesIn<T(!new)>(G: Group<T>, terms: seq<BaseAndExponent<T>>) {
    forall i :: 0 <= i < |terms| ==> G.elem(terms[i].base)
  }

  /** The sum of exponent·base over a list. */
  ghost function SumOfMultiples<T(!new)>(G: Group<T>, terms: seq<BaseAndExponent<T>>): T {
    if terms == [] then G.zero
    else G.add(Multiple(G, terms[0].exponent, terms[0].base), SumOfMultiples(G, terms[1..]))
  }

  lemma SumUnfolds<T(!new)>(G: Group<T>, terms: seq<BaseAndExponent<T>>)
    requires terms != []
    ensures BasesIn(G, terms) <==> G.elem(terms[0].base) && BasesIn(G, terms[1..])
    ensures SumOfMultiples(G, terms)
         == G.add(Multiple(G, terms[0].exponent, terms[0].base), SumOfMultiples(G, terms[1..]))
  {
    assert forall k :: 0 < k < |terms| ==> terms[k] == terms[1..][k - 1];
  }

  lemma {:induction false} SumIn<T(!new)>(G: Group<T>, terms: seq<BaseAndExponent<T>>)
    requires IsAbelian(G) && BasesIn(G, terms)
    ensures G.elem(SumOfMultiples(G, terms))
  {
    if terms != [] {
      SumIn(G, terms[1..]);
      MultipleIn(G, terms[0].exponent, terms[0].base);
      AddIn(G, Multiple(G, terms[0].exponent, terms[0].base), SumOfMultiples(G, terms[1..]));
    }
  }

  lemma {:induction false} SumOfConcatenation<T(!new)>(
    G: Group<T>, s: seq<BaseAndExponent<T>>, t: seq<BaseAndExponent<T>>)
    requires IsAbelian(G) && BasesIn(G, s) && BasesIn(G, t)
    ensures BasesIn(G, s + t)
    ensures SumOfMultiples(G, s + t) == G.add(SumOfMultiples(G, s), SumOfMultiples(G, t))
  {
    SumIn(G, t);
    if s == [] {
      assert s + t == t;
      AddZero(G, SumOfMultiples(G, t));
    } else {
      SumOfConcatenation(G, s[1..], t);
      assert (s + t)[1..] == s[1..] + t;
      SumIn(G, s[1..]);
      MultipleIn(G, s[0].exponent, s[0].base);
      AddAssoc(G, Multiple(G, s[0].exponent, s[0].base), SumOfMultiples(G, s[1..]), SumOfMultiples(G, t));
    }
  }

  lemma SumOfOne<T(!new)>(G: Group<T>, t: BaseAndExponent<T>)
    requires IsAbelian(G) && G.elem(t.base)
    ensures SumOfMultiples(G, [t]) == Multiple(G, t.exponent, t.base)
  {
    MultipleIn(G, t.exponent, t.base);
    AddZero(G, Multiple(G, t.exponent, t.base));
  }

  /** One term taken out of the middle. */
  lemma SumOfRemoved<T(!new)>(G: Group<T>, s: seq<BaseAndExponent<T>>, i: nat)
    requires IsAbelian(G) && BasesIn(G, s) && i < |s|
    ensures BasesIn(G, s[..i] + s[i + 1..])
    ensures SumOfMultiples(G, s)
         == G.add(Multiple(G, s[i].exponent, s[i].base), SumOfMultiples(G, s[..i] + s[i + 1..]))
  {
    var l, r := s[..i], s[i + 1..];
    var m := Multiple(G, s[i].exponent, s[i].base);
    assert s == l + ([s[i]] + r);
    SumOfConcatenation(G, l, [s[i]] + r);
    assert ([s[i]] + r)[1..] == r;
    SumOfConcatenation(G, l, r);
    MultipleIn(G, s[i].exponent, s[i].base);
    SumIn(G, l);
    SumIn(G, r);
    AddAssoc(G, SumOfMultiples(G, l), m, SumOfMultiples(G, r));
    AddIn(G, SumOfMultiples(G, l), m);
    AddAssoc(G, m, SumOfMultiples(G, l), SumOfMultiples(G, r));
  }

  lemma MultisetRemoved<T>(s: seq<T>, i: nat)
    requires i < |s|
    ensures multiset(s[..i] + s[i + 1..]) == multiset(s) - multiset{s[i]}
    ensures i == 0 ==> s[..i] + s[i + 1..] == s[1..]
  {
    assert s == s[..i] + [s[i]] + s[i + 1..];
  }

  lemma PermutationIn<T(!new)>(
    G: Group<T>, s: seq<BaseAndExponent<T>>, t: seq<BaseAndExponent<T>>)
    requires BasesIn(G, s) && multiset(s) == multiset(t)
    ensures BasesIn(G, t)
  {
    forall i | 0 <= i < |t| ensures G.elem(t[i].base) {
      assert t[i] in multiset(t);
      assert t[i] in s;
    }
  }

  /** The order of the terms does not matter. */
  lemma {:induction false} SumOfPermutation<T(!new)>(
    G: Group<T>, s: seq<BaseAndExponent<T>>, t: seq<BaseAndExponent<T>>)
    requires IsAbelian(G) && BasesIn(G, s) && multiset(s) == multiset(t)
    ensures BasesIn(G, t) && SumOfMultiples(G, s) == SumOfMultiples(G, t)
  {
    PermutationIn(G, s, t);
    if s == [] {
      assert |multiset(t)| == 0;
    } else {
      assert s[0] in multiset(t);
      SumUnfolds(G, s);
      hide *;
      var i :| 0 <= i < |t| && t[i] == s[0];
      var t' := t[..i] + t[i + 1..];
      MultisetRemoved(t, i);
      MultisetRemoved(s, 0);
      SumOfPermutation(G, s[1..], t');
      SumOfRemoved(G, t, i);
    }
  }

  /** The axioms can be met: the integers under addition. */
  lemma IntegersAreAbelian(fast: bool)
    ensures IsAbelian(Group((a: int) => true, 0, (a: int, b: int) => a + b, (a: int) => -a, fast))
  {
    var G := Group((a: int) => true, 0, (a: int, b: int) => a + b, (a: int) => -a, fast);
    forall a ensures InverseLaws(G, a) {}
    forall a, b ensures CommutativeLaws(G, a, b) {}
    forall a, b, c ensures AssociativeLaw(G, a, b, c) {}
  }
}
