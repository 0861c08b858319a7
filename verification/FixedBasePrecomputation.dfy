/** Exponentiation of a fixed base with a table of its 2^(w·i)-fold multiples (eprecomp.cpp). */
module FixedBasePrecomputation {
  import opened BitMath
  import opened AbelianGroups
  import opened ScalarMultiplication
  import opened GeneralCascade

  /** A group together with the conversions to and from its internal representation. */
  datatype GroupPrecomputation<!T(!new)> = GroupPrecomputation(
    group: Group<T>, needConversions: bool, convertIn: T -> T, convertOut: T -> T)
  {
    function In(v: T): T { if needConversions then convertIn(v) else v }
    function Out(v: T): T { if needConversions then convertOut(v) else v }
  }

  /** Conversion out of the internal group goes over to the caller's group and respects addition. */
  ghost predicate Respects<T(!new)>(pre: GroupPrecomputation<T>, H: Group<T>, x: T, y: T) {
    pre.group.elem(x) && pre.group.elem(y) ==>
      H.elem(pre.Out(x)) && pre.Out(pre.group.add(x, y)) == H.add(pre.Out(x), pre.Out(y))
  }

  /** What is converted in is converted out again as it was. */
  ghost predicate ComesBack<T(!new)>(pre: GroupPrecomputation<T>, H: Group<T>, b: T) {
    H.elem(b) ==> pre.group.elem(pre.In(b)) && pre.Out(pre.In(b)) == b
  }

  /** `H` is the group that the caller sees. */
  ghost predicate Converts<T(!new)>(pre: GroupPrecomputation<T>, H: Group<T>) {
    IsAbelian(pre.group) && IsAbelian(H) && (forall x, y :: Respects(pre, H, x, y))
      && (forall b :: ComesBack(pre, H, b))
  }

  /** Such a conversion takes the identity to the identity: out(0) is its own double. */
  lemma ConvertedZero<T(!new)>(pre: GroupPrecomputation<T>, H: Group<T>)
    requires Converts(pre, H)
    ensures pre.Out(pre.group.zero) == H.zero
  {
    var z := pre.Out(pre.group.zero);
    assert Respects(pre, H, pre.group.zero, pre.group.zero);
    AddZero(pre.group, pre.group.zero);
    NegIn(H, z);
    AddAssoc(H, z, z, H.neg(z));
    AddZero(H, z);
  }

  /** The internal multiple of the base converted in is, converted out, the caller's multiple of the base. */
  lemma {:induction false} ConvertedMultiple<T(!new)>(pre: GroupPrecomputation<T>, H: Group<T>, k: nat, b: T)
    requires Converts(pre, H) && H.elem(b)
    ensures pre.Out(Multiple(pre.group, k, pre.In(b))) == Multiple(H, k, b)
  {
    var a := pre.In(b);
    assert ComesBack(pre, H, b);
    if k == 0 {
      ConvertedZero(pre, H);
    } else {
      ConvertedMultiple(pre, H, k - 1, b);
      MultipleIn(pre.group, k - 1, a);
      assert Respects(pre, H, Multiple(pre.group, k - 1, a), a);
    }
  }

  lemma ConvertedCombination<T(!new)>(pre: GroupPrecomputation<T>, H: Group<T>, i: nat, x: T, j: nat, y: T)
    requires Converts(pre, H) && H.elem(x) && H.elem(y)
    ensures pre.Out(Combination(pre.group, i, pre.In(x), j, pre.In(y))) == Combination(H, i, x, j, y)
  {
    assert ComesBack(pre, H, x) && ComesBack(pre, H, y);
    ConvertedMultiple(pre, H, i, x);
    ConvertedMultiple(pre, H, j, y);
    MultipleIn(pre.group, i, pre.In(x));
    MultipleIn(pre.group, j, pre.In(y));
    assert Respects(pre, H, Multiple(pre.group, i, pre.In(x)), Multiple(pre.group, j, pre.In(y)));
  }

  /** Each base is 2^w times the one before. */
  ghost predicate Chained<T(!new)>(G: Group<T>, bases: seq<T>, w: nat) {
    && (forall i :: 0 <= i < |bases| ==> G.elem(bases[i]))
    && (forall i :: 0 <= i < |bases| - 1 ==> bases[i + 1] == Multiple(G, Pow2(w), bases[i]))
  }

  /** Unsigned digit: r·b + q·(p·b) == (q·p + r)·b */
  lemma UnsignedDigit<T(!new)>(G: Group<T>, b: T, p: nat, q: nat, r: nat)
    requires IsAbelian(G) && G.elem(b)
    ensures G.elem(Multiple(G, p, b))
    ensures G.add(Multiple(G, r, b), Multiple(G, q, Multiple(G, p, b))) == Multiple(G, q * p + r, b)
  {
    MultipleIn(G, p, b);
    MultipleMultiple(G, q, p, b);
    MultipleAdd(G, r, q * p, b);
  }

  /** Signed digit: (p - r)·(-b) + (q + 1)·(p·b) == (q·p + r)·b */
  lemma SignedDigit<T(!new)>(G: Group<T>, b: T, p: nat, q: nat, r: nat)
    requires IsAbelian(G) && G.elem(b) && r <= p
    ensures G.elem(G.neg(b)) && G.elem(Multiple(G, p, b))
    ensures G.add(Multiple(G, p - r, G.neg(b)), Multiple(G, q + 1, Multiple(G, p, b))) == Multiple(G, q * p + r, b)
  {
    MultipleIn(G, p, b);
    MultipleOfNeg(G, p - r, b);
    MultipleMultiple(G, q + 1, p, b);
    MultipleAdd(G, 0 - (p - r), (q + 1) * p, b);
    OneMore(q, p, r);
  }

  lemma OneMore(q: int, p: int, r: int)
    ensures 0 - (p - r) + (q + 1) * p == q * p + r
  {}

  class FixedBase<T(!new, ==)> {
    var base: T
    var windowSize: nat
    var exponentBase: nat
    var bases: seq<T>

    ghost predicate Valid(G: Group<T>)
      reads this
    {
      && Chained(G, bases, windowSize)
      && (|bases| > 1 ==> windowSize >= 1 && exponentBase == Pow2(windowSize))
    }

    /** The table belongs to the base, which is kept as the caller gave it. */
    predicate HasBase(pre: GroupPrecomputation<T>)
      reads this
    {
      |bases| > 0 && bases[0] == pre.In(base)
    }

    constructor (unset: T)
      ensures bases == [] && forall G :: Valid(G)
    {
      base := unset;
      windowSize, exponentBase, bases := 0, 0, [];
    }

    /** Chooses the base; a table for the same base is kept. */
    method SetBase(pre: GroupPrecomputation<T>, newBase: T)
      requires Valid(pre.group) && pre.group.elem(pre.In(newBase))
      modifies this
      ensures Valid(pre.group) && base == newBase && HasBase(pre)
      ensures bases == if old(bases) != [] && old(bases)[0] == pre.In(newBase) then old(bases) else [pre.In(newBase)]
    {
      base := pre.In(newBase);
      if |bases| == 0 || base != bases[0] {
        bases := [base];
      }
      if pre.needConversions {
        base := newBase;
      }
    }

    /** Fills the table with `storage` bases, for exponents of up to `maxExpBits` bits. */
    method Precompute(pre: GroupPrecomputation<T>, maxExpBits: nat, storage: nat)
      requires IsAbelian(pre.group) && Valid(pre.group) && |bases| > 0
      requires 1 <= storage <= maxExpBits
      modifies this`windowSize, this`exponentBase, this`bases
      ensures Valid(pre.group) && |bases| == storage && bases[0] == old(bases)[0]
    {
      var G := pre.group;
      hide IsAbelian, Multiple;
      if storage > 1 {
        windowSize := (maxExpBits + storage - 1) / storage;
        exponentBase := Pow2(windowSize);
        TableWidth(maxExpBits, storage);
      }
      bases := if storage <= |bases| then bases[..storage] else bases + seq(storage - |bases|, _ => G.zero);
      for i := 1 to storage
        invariant |bases| == storage && bases[0] == old(bases)[0] && G.elem(bases[0])
        invariant storage > 1 ==> windowSize >= 1 && exponentBase == Pow2(windowSize)
        invariant Chained(G, bases[..i], windowSize)
      {
        assert bases[..i][i - 1] == bases[i - 1];
        MultipleIn(G, exponentBase, bases[i - 1]);
        var next := ScalarMultiply(G, bases[i - 1], exponentBase);
        bases := bases[i := next];
        ChainedMore(G, bases, windowSize, i);
      }
      assert bases[..storage] == bases;
    }

    /** Cuts the exponent into one digit per base and appends the terms to the list. */
    method PrepareCascade(pre: GroupPrecomputation<T>, eb: seq<BaseAndExponent<T>>, exponent: nat)
      returns (eb': seq<BaseAndExponent<T>>)
      requires IsAbelian(pre.group) && Valid(pre.group) && |bases| > 0 && BasesIn(pre.group, eb)
      ensures |eb'| == |eb| + |bases| && BasesIn(pre.group, eb')
      ensures SumOfMultiples(pre.group, eb')
           == pre.group.add(SumOfMultiples(pre.group, eb), Multiple(pre.group, exponent, bases[0]))
    {
      var G := pre.group;
      hide IsAbelian, Multiple, SumOfMultiples;
      var e := exponent;
      var fastNegate := G.inversionIsFast && windowSize > 1;
      eb' := eb;
      ghost var sum := G.add(SumOfMultiples(G, eb), Multiple(G, exponent, bases[0]));
      var i := 0;
      while i + 1 < |bases|
        invariant 0 <= i < |bases| && |eb'| == |eb| + i && BasesIn(G, eb')
        invariant G.add(SumOfMultiples(G, eb'), Multiple(G, e, bases[i])) == sum
      {
        var r, q := Low(e, windowSize), Shift(e, windowSize);
        ShiftLow(e, windowSize);
        var term: BaseAndExponent<T>;
        if fastNegate && GetBit(r, windowSize - 1) {
          SignedDigit(G, bases[i], Pow2(windowSize), q, r);
          term := BaseAndExponent(G.neg(bases[i]), exponentBase - r);
          q := q + 1;
        } else {
          UnsignedDigit(G, bases[i], Pow2(windowSize), q, r);
          term := BaseAndExponent(bases[i], r);
        }
        TermAppended(G, eb', term, q, bases[i + 1], Multiple(G, e, bases[i]));
        eb' := eb' + [term];
        e := q;
        i := i + 1;
      }
      var last := BaseAndExponent(bases[i], e);
      SumOfConcatenation(G, eb', [last]);
      SumOfOne(G, last);
      eb' := eb' + [last];
    }

    /** exponent·base in the caller's group. */
    method Exponentiate(pre: GroupPrecomputation<T>, ghost H: Group<T>, exponent: nat) returns (result: T)
      requires Converts(pre, H) && Valid(pre.group) && HasBase(pre) && H.elem(base)
      ensures result == Multiple(H, exponent, base)
    {
      var G := pre.group;
      assert IsAbelian(G);
      ConvertedMultiple(pre, H, exponent, base);
      hide Converts, Multiple, SumOfMultiples, IsAbelian;
      var eb := PrepareCascade(pre, [], exponent);
      MultipleIn(G, exponent, bases[0]);
      AddZero(G, Multiple(G, exponent, bases[0]));
      var sum := SumOf(G, eb);
      SumOfNothing(G);
      result := pre.Out(sum);
    }

    /** exponent·base + exponent2·base2 in the caller's group, for the bases of two tables. */
    method CascadeExponentiate(
      pre: GroupPrecomputation<T>, ghost H: Group<T>, exponent: nat, pc2: FixedBase<T>, exponent2: nat)
      returns (result: T)
      requires Converts(pre, H) && Valid(pre.group) && HasBase(pre) && H.elem(base)
      requires pc2.Valid(pre.group) && pc2.HasBase(pre) && H.elem(pc2.base)
      ensures result == Combination(H, exponent, base, exponent2, pc2.base)
    {
      var G := pre.group;
      assert IsAbelian(G);
      ConvertedCombination(pre, H, exponent, base, exponent2, pc2.base);
      hide Converts, Multiple, SumOfMultiples, IsAbelian;
      var eb := PrepareCascade(pre, [], exponent);
      MultipleIn(G, exponent, bases[0]);
      AddZero(G, Multiple(G, exponent, bases[0]));
      SumOfNothing(G);
      eb := pc2.PrepareCascade(pre, eb, exponent2);
      var sum := SumOf(G, eb);
      result := pre.Out(sum);
    }
  }

  lemma SumOfNothing<T(!new)>(G: Group<T>)
    ensures SumOfMultiples(G, []) == G.zero && BasesIn(G, [])
  {}

  /** The cascade works on a copy of the list. */
  method SumOf<T(!new, ==)>(G: Group<T>, eb: seq<BaseAndExponent<T>>) returns (sum: T)
    requires IsAbelian(G) && BasesIn(G, eb) && |eb| > 0
    ensures sum == SumOfMultiples(G, eb)
  {
    var a := new BaseAndExponent<T>[|eb|](k requires 0 <= k < |eb| => eb[k]);
    assert a[..] == eb;
    sum := GeneralCascadeMultiplication(G, a);
  }

  /** From a new table to the multiple: whatever the size of the table, it is exponent·base. */
  method FixedBaseMultiple<T(!new, ==)>(
    pre: GroupPrecomputation<T>, ghost H: Group<T>, base: T, maxExpBits: nat, storage: nat, exponent: nat)
    returns (result: T)
    requires Converts(pre, H) && H.elem(base) && 1 <= storage <= maxExpBits
    ensures result == Multiple(H, exponent, base)
  {
    var table := NewTable(pre, H, base, maxExpBits, storage);
    result := table.Exponentiate(pre, H, exponent);
  }

  method NewTable<T(!new, ==)>(
    pre: GroupPrecomputation<T>, ghost H: Group<T>, base: T, maxExpBits: nat, storage: nat)
    returns (table: FixedBase<T>)
    requires Converts(pre, H) && H.elem(base) && 1 <= storage <= maxExpBits
    ensures fresh(table) && table.Valid(pre.group) && table.HasBase(pre) && table.base == base
    ensures |table.bases| == storage
  {
    assert ComesBack(pre, H, base);
    table := new FixedBase(base);
    table.SetBase(pre, base);
    table.Precompute(pre, maxExpBits, storage);
  }

  /** The same for two bases with a table each. */
  method FixedBaseCombination<T(!new, ==)>(
    pre: GroupPrecomputation<T>, ghost H: Group<T>, maxExpBits: nat,
    base: T, storage: nat, exponent: nat, base2: T, storage2: nat, exponent2: nat)
    returns (result: T)
    requires Converts(pre, H) && H.elem(base) && H.elem(base2)
    requires 1 <= storage <= maxExpBits && 1 <= storage2 <= maxExpBits
    ensures result == Combination(H, exponent, base, exponent2, base2)
  {
    hide Converts;
    var table := NewTable(pre, H, base, maxExpBits, storage);
    var table2 := NewTable(pre, H, base2, maxExpBits, storage2);
    result := table.CascadeExponentiate(pre, H, exponent, table2, exponent2);
  }

  lemma TableWidth(maxExpBits: nat, storage: nat)
    requires 1 <= storage <= maxExpBits
    ensures (maxExpBits + storage - 1) / storage >= 1
  {}

  lemma ChainedMore<T(!new)>(G: Group<T>, bases: seq<T>, w: nat, i: nat)
    requires 0 < i < |bases| && Chained(G, bases[..i], w)
    requires G.elem(bases[i]) && bases[i] == Multiple(G, Pow2(w), bases[i - 1])
    ensures Chained(G, bases[..i + 1], w)
  {
    var s, t := bases[..i], bases[..i + 1];
    assert forall k :: 0 <= k < i ==> t[k] == s[k];
  }

  /** Taking a digit off leaves the sum of the list and the rest as it was. */
  lemma TermAppended<T(!new)>(
    G: Group<T>, eb: seq<BaseAndExponent<T>>, term: BaseAndExponent<T>, q: nat, next: T, whole: T)
    requires IsAbelian(G) && BasesIn(G, eb) && G.elem(term.base) && G.elem(next)
    requires G.add(Multiple(G, term.exponent, term.base), Multiple(G, q, next)) == whole
    ensures BasesIn(G, eb + [term])
    ensures G.add(SumOfMultiples(G, eb + [term]), Multiple(G, q, next)) == G.add(SumOfMultiples(G, eb), whole)
  {
    SumOfConcatenation(G, eb, [term]);
    SumOfOne(G, term);
    SumIn(G, eb);
    MultipleIn(G, term.exponent, term.base);
    MultipleIn(G, q, next);
    AddAssoc(G, SumOfMultiples(G, eb), Multiple(G, term.exponent, term.base), Multiple(G, q, next));
  }
}
