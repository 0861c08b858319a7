/** The sum of exponent·base over any non-empty list, by the heap-driven Euclid cascade
    (algebra.cpp, GeneralCascadeMultiplication). */
module GeneralCascade {
  import opened AbelianGroups
  import opened Heaps
  import opened ScalarMultiplication
  import opened CascadeMultiplication

  /** The sum of the exponents, which every step of the cascade makes smaller. */
  ghost function Total<T>(s: seq<BaseAndExponent<T>>): nat {
    if s == [] then 0 else s[0].exponent + Total(s[1..])
  }

  lemma {:induction false} TotalOfConcatenation<T>(s: seq<BaseAndExponent<T>>, t: seq<BaseAndExponent<T>>)
    ensures Total(s + t) == Total(s) + Total(t)
  {
    if s == [] {
      assert s + t == t;
    } else {
      TotalOfConcatenation(s[1..], t);
      assert (s + t)[1..] == s[1..] + t;
    }
  }

  lemma TotalOfRemoved<T>(t: seq<BaseAndExponent<T>>, i: nat)
    requires i < |t|
    ensures Total(t) == t[i].exponent + Total(t[..i] + t[i + 1..])
  {
    TotalOfConcatenation(t[..i], t[i + 1..]);
    TotalOfConcatenation(t[..i], t[i..]);
    assert t[i..][1..] == t[i + 1..];
    assert t[..i] + t[i..] == t;
  }

  lemma {:induction false} TotalOfPermutation<T>(s: seq<BaseAndExponent<T>>, t: seq<BaseAndExponent<T>>)
    requires multiset(s) == multiset(t)
    ensures Total(s) == Total(t)
  {
    if s == [] {
      assert |multiset(t)| == 0;
    } else {
      assert s[0] in multiset(t);
      var i :| 0 <= i < |t| && t[i] == s[0];
      MultisetRemoved(t, i);
      MultisetRemoved(s, 0);
      TotalOfPermutation(s[1..], t[..i] + t[i + 1..]);
      TotalOfRemoved(t, i);
    }
  }

  /** The largest exponent is last and the largest of the others is first. */
  ghost predicate LargestLast<T>(s: seq<BaseAndExponent<T>>) {
    && |s| >= 2 && IsHeap(s, |s| - 1)
    && s[0].exponent <= s[|s| - 1].exponent
  }

  lemma FirstIsNextLargest<T>(s: seq<BaseAndExponent<T>>, k: nat)
    requires LargestLast(s) && k < |s| - 1
    ensures s[k].exponent <= s[0].exponent <= s[|s| - 1].exponent
  {
    RootIsLargest(s, |s| - 1, k);
  }

  /** push_heap followed by pop_heap. */
  method MoveLargestLast<T>(a: array<BaseAndExponent<T>>)
    requires a.Length >= 2 && IsHeap(a[..], a.Length - 1)
    modifies a
    ensures LargestLast(a[..])
    ensures multiset(a[..]) == multiset(old(a[..]))
  {
    PushHeap(a, a.Length);
    RootBounds(a[..]);
    PopHeap(a, a.Length);
    assert a[0] in multiset(a[..]);
  }

  lemma RootBounds<T>(s: seq<BaseAndExponent<T>>)
    requires IsHeap(s, |s|)
    ensures forall t :: t in multiset(s) ==> t.exponent <= s[0].exponent
  {
    forall t | t in multiset(s) ensures t.exponent <= s[0].exponent {
      var k :| 0 <= k < |s| && s[k] == t;
      RootIsLargest(s, |s|, k);
    }
  }

  /** One step of the cascade on the list: the last exponent t becomes its remainder r modulo the
      first exponent, and the first base absorbs the quotient's worth of the last one. */
  ghost function Stepped<T(!new)>(G: Group<T>, s: seq<BaseAndExponent<T>>, q: nat, r: nat): seq<BaseAndExponent<T>>
    requires |s| >= 2
  {
    var last := |s| - 1;
    s[last := BaseAndExponent(s[last].base, r)]
     [0 := BaseAndExponent(G.add(s[0].base, Multiple(G, q, s[last].base)), s[0].exponent)]
  }

  lemma SumOfEnds<T(!new)>(
    G: Group<T>, f: BaseAndExponent<T>, mid: seq<BaseAndExponent<T>>, l: BaseAndExponent<T>)
    requires IsAbelian(G) && G.elem(f.base) && G.elem(l.base) && BasesIn(G, mid)
    ensures BasesIn(G, [f] + mid + [l])
    ensures SumOfMultiples(G, [f] + mid + [l])
         == G.add(G.add(Multiple(G, f.exponent, f.base), SumOfMultiples(G, mid)), Multiple(G, l.exponent, l.base))
    ensures Total([f] + mid + [l]) == f.exponent + Total(mid) + l.exponent
  {
    SumOfOne(G, f);
    SumOfOne(G, l);
    SumOfConcatenation(G, [f], mid);
    SumOfConcatenation(G, [f] + mid, [l]);
    TotalOfConcatenation([f], mid);
    TotalOfConcatenation([f] + mid, [l]);
    assert Total([l]) == l.exponent && Total([f]) == f.exponent;
  }

  /** f·F + M + (q·f + r)·L == f·(F + q·L) + M + r·L */
  lemma QuotientMoves<T(!new)>(G: Group<T>, f: nat, F: T, M: T, q: nat, r: nat, L: T)
    requires IsAbelian(G) && G.elem(F) && G.elem(M) && G.elem(L)
    ensures G.elem(Multiple(G, q, L)) && G.elem(G.add(F, Multiple(G, q, L)))
    ensures G.add(G.add(Multiple(G, f, F), M), Multiple(G, q * f + r, L))
         == G.add(G.add(Multiple(G, f, G.add(F, Multiple(G, q, L))), M), Multiple(G, r, L))
  {
    var fF, qfL, rL := Multiple(G, f, F), Multiple(G, q * f, L), Multiple(G, r, L);
    MultipleIn(G, q, L);
    AddIn(G, F, Multiple(G, q, L));
    MultipleOfSum(G, f, F, Multiple(G, q, L));
    MultipleMultiple(G, f, q, L);
    assert f * q == q * f;
    MultipleAdd(G, q * f, r, L);
    MultipleIn(G, f, F);
    MultipleIn(G, q * f, L);
    MultipleIn(G, r, L);
    AddIn(G, fF, M);
    AddAssoc(G, G.add(fF, M), qfL, rL);
    AddAssoc(G, fF, M, qfL);
    AddIn(G, M, qfL);
    AddAssoc(G, fF, qfL, M);
  }

  /** The step keeps the sum, and if the first exponent is not zero it shrinks the total. */
  lemma StepKeepsSum<T(!new)>(G: Group<T>, s: seq<BaseAndExponent<T>>, q: nat, r: nat)
    requires IsAbelian(G) && BasesIn(G, s) && |s| >= 2
    requires s[|s| - 1].exponent == q * s[0].exponent + r
    ensures BasesIn(G, Stepped(G, s, q, r))
    ensures SumOfMultiples(G, Stepped(G, s, q, r)) == SumOfMultiples(G, s)
    ensures Total(Stepped(G, s, q, r)) == Total(s) - s[|s| - 1].exponent + r
  {
    var last := |s| - 1;
    var f, mid, l := s[0], s[1..last], s[last];
    var s' := Stepped(G, s, q, r);
    assert s == [f] + mid + [l];
    assert s' == [s'[0]] + mid + [s'[last]];
    SumIn(G, mid);
    QuotientMoves(G, f.exponent, f.base, SumOfMultiples(G, mid), q, r, l.base);
    SumOfEnds(G, f, mid, l);
    SumOfEnds(G, s'[0], mid, s'[last]);
  }

  lemma {:induction false} SumOfZeros<T(!new)>(G: Group<T>, s: seq<BaseAndExponent<T>>)
    requires IsAbelian(G) && forall k :: 0 <= k < |s| ==> s[k].exponent == 0
    ensures SumOfMultiples(G, s) == G.zero
  {
    if s != [] {
      SumOfZeros(G, s[1..]);
      AddZero(G, G.zero);
    }
  }

  /** Integer::Divide for natural numbers. */
  method Divide(t: nat, d: nat) returns (q: nat, r: nat)
    requires d > 0
    ensures t == q * d + r && r < d && q <= t
  {
    q, r := t / d, t % d;
    assert q * d >= q;
  }

  /** What a cascade in progress keeps: the order the heap calls set up, and the sum. */
  ghost predicate Cascading<T(!new)>(G: Group<T>, s: seq<BaseAndExponent<T>>, sum: T) {
    LargestLast(s) && BasesIn(G, s) && SumOfMultiples(G, s) == sum
  }

  /** When the next largest exponent is zero only the last term is left. */
  lemma OnlyLastLeft<T(!new)>(G: Group<T>, s: seq<BaseAndExponent<T>>, sum: T)
    requires IsAbelian(G) && Cascading(G, s, sum) && s[0].exponent == 0
    ensures |s| >= 2 && G.elem(s[|s| - 1].base) && sum == Multiple(G, s[|s| - 1].exponent, s[|s| - 1].base)
  {
    var last := |s| - 1;
    forall k | 0 <= k < last ensures s[k].exponent == 0 { FirstIsNextLargest(s, k); }
    assert s == s[..last] + [s[last]];
    SumOfConcatenation(G, s[..last], [s[last]]);
    SumOfZeros(G, s[..last]);
    SumOfOne(G, s[last]);
    MultipleIn(G, s[last].exponent, s[last].base);
    AddZero(G, Multiple(G, s[last].exponent, s[last].base));
  }

  lemma SumOfTwo<T(!new)>(G: Group<T>, s: seq<BaseAndExponent<T>>)
    requires IsAbelian(G) && BasesIn(G, s) && |s| == 2
    ensures SumOfMultiples(G, s) == Combination(G, s[0].exponent, s[0].base, s[1].exponent, s[1].base)
  {
    assert s[1..] == [s[1]];
    SumOfOne(G, s[1]);
  }

  lemma EndsIn<T(!new)>(G: Group<T>, s: seq<BaseAndExponent<T>>, sum: T)
    requires Cascading(G, s, sum)
    ensures |s| >= 2 && G.elem(s[0].base) && G.elem(s[|s| - 1].base) && s[0].exponent <= s[|s| - 1].exponent
  {}

  /** make_heap and pop_heap at the start of a cascade. */
  method StartCascade<T(!new)>(G: Group<T>, a: array<BaseAndExponent<T>>)
    requires IsAbelian(G) && BasesIn(G, a[..]) && a.Length >= 2
    modifies a
    ensures Cascading(G, a[..], SumOfMultiples(G, old(a[..])))
    ensures multiset(a[..]) == multiset(old(a[..]))
  {
    MakeHeap(a);
    RootBounds(a[..]);
    PopHeap(a, a.Length);
    assert a[0] in multiset(a[..]);
    SumOfPermutation(G, old(a[..]), a[..]);
  }

  /** The end of a step: the changed terms are stored, and the heap calls put the largest exponent
      last again. */
  method FinishStep<T(!new)>(
    G: Group<T>, a: array<BaseAndExponent<T>>, first: T, ghost q: nat, r: nat, ghost sum: T)
    requires IsAbelian(G) && Cascading(G, a[..], sum) && a[0].exponent > 0
    requires a[a.Length - 1].exponent == q * a[0].exponent + r && r < a[0].exponent
    requires first == G.add(a[0].base, Multiple(G, q, a[a.Length - 1].base))
    modifies a
    ensures Cascading(G, a[..], sum) && Total(a[..]) < Total(old(a[..]))
    ensures a[a.Length - 1].exponent <= old(a[a.Length - 1].exponent)
  {
    StepKeepsSum(G, a[..], q, r);
    ghost var was := a[..];
    a[a.Length - 1] := BaseAndExponent(a[a.Length - 1].base, r);
    a[0] := BaseAndExponent(first, a[0].exponent);
    ghost var stepped := a[..];
    assert stepped == Stepped(G, was, q, r);
    StepBounds(G, was, q, r);
    MoveLargestLast(a);
    assert a[a.Length - 1] in multiset(a[..]);
    SumOfPermutation(G, stepped, a[..]);
    TotalOfPermutation(stepped, a[..]);
  }

  lemma StepBounds<T(!new)>(G: Group<T>, s: seq<BaseAndExponent<T>>, q: nat, r: nat)
    requires LargestLast(s) && r < s[0].exponent
    ensures var s' := Stepped(G, s, q, r);
            && IsHeap(s', |s'| - 1)
            && forall t :: t in multiset(s') ==> t.exponent <= s[|s| - 1].exponent
  {
    var s' := Stepped(G, s, q, r);
    forall t: BaseAndExponent<T> | t in multiset(s') ensures t.exponent <= s[|s| - 1].exponent {
      var k :| 0 <= k < |s'| && s'[k] == t;
      if k < |s| - 1 { FirstIsNextLargest(s, k); }
    }
  }

  /** The sum of exponent·base over the list. */
  method GeneralCascadeMultiplication<T(!new)>(G: Group<T>, a: array<BaseAndExponent<T>>) returns (result: T)
    requires IsAbelian(G) && BasesIn(G, a[..]) && a.Length >= 1
    modifies a
    ensures result == SumOfMultiples(G, old(a[..]))
  {
    hide IsAbelian;
    if a.Length == 1 {
      SumOfOne(G, a[0]);
      assert a[..] == [a[0]];
      result := ScalarMultiply(G, a[0].base, a[0].exponent);
    } else if a.Length == 2 {
      SumOfTwo(G, a[..]);
      result := CascadeScalarMultiply(G, a[0].base, a[0].exponent, a[1].base, a[1].exponent);
    } else {
      result := LongCascade(G, a);
    }
  }

  method LongCascade<T(!new)>(G: Group<T>, a: array<BaseAndExponent<T>>) returns (result: T)
    requires IsAbelian(G) && BasesIn(G, a[..]) && a.Length > 2
    modifies a
    ensures result == SumOfMultiples(G, old(a[..]))
  {
    hide IsAbelian, Multiple, Cascading, SumOfMultiples, Total;
    ghost var sum := SumOfMultiples(G, a[..]);
    var last := a.Length - 1;
    StartCascade(G, a);
    while a[0].exponent != 0
      invariant Cascading(G, a[..], sum)
      decreases Total(a[..])
    {
      EndsIn(G, a[..], sum);
      var q, r := Divide(a[last].exponent, a[0].exponent);
      var first := Absorb(G, a[0].base, a[last].base, q);
      FinishStep(G, a, first, q, r, sum);
    }
    OnlyLastLeft(G, a[..], sum);
    result := ScalarMultiply(G, a[last].base, a[last].exponent);
  }

  /** The first base plus the quotient's worth of the last, with no multiplication for one. */
  method Absorb<T(!new)>(G: Group<T>, base: T, other: T, q: nat) returns (first: T)
    requires IsAbelian(G) && G.elem(other)
    ensures first == G.add(base, Multiple(G, q, other))
  {
    if q == 1 {
      MultipleOne(G, other);
      first := G.add(base, other);
    } else {
      var multiple := ScalarMultiply(G, other, q);
      first := G.add(base, multiple);
    }
  }
}
