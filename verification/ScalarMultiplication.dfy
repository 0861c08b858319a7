/** Multiplication of one base by several exponents at once, by signed sliding windows and
    buckets (algebra.cpp, SimultaneousMultiply and ScalarMultiply of AbstractGroup).

    Every group element of a run is a multiple of the base, so each bucket is paired with a ghost
    integer coefficient, and the arithmetic is done on the coefficients. */
module ScalarMultiplication {
  import opened BitMath
  import opened AbelianGroups
  import opened WindowSliders

  /** Each bucket holds its coefficient times the base. */
  ghost predicate Holds<T(!new)>(G: Group<T>, base: T, bucket: seq<T>, coeff: seq<int>) {
    && |bucket| == |coeff|
    && forall j :: 0 <= j < |bucket| ==> bucket[j] == Multiple(G, coeff[j], base)
  }

  /** The sum of (2k+1)·c[k] from index `j` on: bucket k collects the digits of size 2k+1. */
  ghost function Weighted(c: seq<int>, j: nat): int
    requires j <= |c|
    decreases |c| - j
  {
    if j == |c| then 0 else (2 * j + 1) * c[j] + Weighted(c, j + 1)
  }

  /** c[j] + ... + c[|c|-1] */
  ghost function SuffixSum(c: seq<int>, j: nat): int
    requires j <= |c|
    decreases |c| - j
  {
    if j == |c| then 0 else c[j] + SuffixSum(c, j + 1)
  }

  /** The sum of the suffix sums from `j` on. */
  ghost function SumOfSuffixes(c: seq<int>, j: nat): int
    requires j <= |c|
    decreases |c| - j
  {
    if j == |c| then 0 else SuffixSum(c, j) + SumOfSuffixes(c, j + 1)
  }

  /** Two passes of running sums weigh the k-th entry by 2k+1. */
  lemma {:induction false} SuffixesWeigh(c: seq<int>, j: nat)
    requires j <= |c|
    ensures Weighted(c, j) == (2 * j - 1) * SuffixSum(c, j) + 2 * SumOfSuffixes(c, j)
    decreases |c| - j
  {
    if j < |c| {
      SuffixesWeigh(c, j + 1);
      Collect(2 * j + 1, c[j], SuffixSum(c, j + 1));
    } else {
      assert (2 * j - 1) * 0 == 0;
    }
  }

  lemma Collect(a: int, b: int, c: int)
    ensures a * b + a * c == a * (b + c) == (a - 2) * (b + c) + 2 * (b + c)
  {}

  lemma {:induction false} WeightedZeros(n: nat, j: nat)
    requires j <= n
    ensures Weighted(seq(n, _ => 0), j) == 0
    decreases n - j
  {
    if j < n { WeightedZeros(n, j + 1); }
  }

  /** Adding `x` to one coefficient adds its weight times `x`. */
  lemma {:induction false} WeightedUpdate(c: seq<int>, i: nat, x: int, j: nat)
    requires i < |c| && j <= |c|
    ensures Weighted(c[i := c[i] + x], j) == Weighted(c, j) + if j <= i then (2 * i + 1) * x else 0
    decreases |c| - j
  {
    if j < |c| {
      WeightedUpdate(c, i, x, j + 1);
      if i == j { Distribute(2 * j + 1, c[j], x); }
    }
  }

  lemma Distribute(a: int, b: int, c: int)
    ensures a * (b + c) == a * b + a * c
  {}

  /** The last pass: running sums over the buckets, one addition each, give the weighted sum. */
  method CollectBuckets<T(!new)>(G: Group<T>, bucket: seq<T>, base: T, ghost coeff: seq<int>) returns (r: T)
    requires IsAbelian(G) && G.elem(base)
    requires |bucket| > 0 && Holds(G, base, bucket, coeff)
    ensures r == Multiple(G, Weighted(coeff, 0), base)
  {
    hide IsAbelian, Multiple;
    var b := bucket;
    r := b[|b| - 1];
    SuffixesWeigh(coeff, 0);
    assert SuffixSum(coeff, |b|) == SumOfSuffixes(coeff, |b|) == 0;
    assert SuffixSum(coeff, |b| - 1) == SumOfSuffixes(coeff, |b| - 1) == coeff[|b| - 1];
    if |b| > 1 {
      var j := |b| - 2;
      while j >= 1
        invariant 0 <= j <= |b| - 2 && |b| == |coeff|
        invariant r == Multiple(G, SumOfSuffixes(coeff, j + 1), base)
        invariant b[j + 1] == Multiple(G, SuffixSum(coeff, j + 1), base)
        invariant forall k :: 0 <= k <= j ==> b[k] == Multiple(G, coeff[k], base)
      {
        MultipleAdd(G, coeff[j], SuffixSum(coeff, j + 1), base);
        b := b[j := G.add(b[j], b[j + 1])];
        MultipleAdd(G, SumOfSuffixes(coeff, j + 1), SuffixSum(coeff, j), base);
        r := G.add(r, b[j]);
        j := j - 1;
      }
      MultipleAdd(G, coeff[0], SuffixSum(coeff, 1), base);
      b := b[0 := G.add(b[0], b[1])];
      var t := SumOfSuffixes(coeff, 1);
      MultipleAdd(G, t, t, base);
      MultipleAdd(G, t + t, SuffixSum(coeff, 0), base);
      r := G.add(G.add(r, r), b[0]);
    }
  }

  /** One exponent in the middle of a run, before bit `position`: what its buckets hold and what
      its slider still has ahead make up the exponent. */
  ghost predicate Tracks<T(!new)>(
    G: Group<T>, base: T, s: WindowSlider, bucket: seq<T>, coeff: seq<int>,
    e: nat, position: nat, limit: nat)
    reads s
  {
    && s.Valid() && !s.firstTime
    && Holds(G, base, bucket, coeff)
    && |bucket| == Pow2(s.windowSize - 1)
    && Weighted(coeff, 0) + SumOfDigits(s.Remaining()) == e
    && WellFormed(s.Remaining(), s.windowSize, s.fastNegate, position)
    && PositionsBelow(s.Remaining(), limit)
  }

  ghost predicate PositionsBelow(digits: seq<Digit>, limit: nat) {
    forall k :: 0 <= k < |digits| ==> digits[k].position < limit
  }

  ghost function Limit(digits: seq<Digit>): (limit: nat)
    ensures PositionsBelow(digits, limit)
  {
    if digits == [] then 0
    else
      var l := Limit(digits[1..]);
      if digits[0].position < l then l else digits[0].position + 1
  }

  lemma {:induction false} WellFormedLater(digits: seq<Digit>, w: nat, fastNegate: bool, pos: nat, pos': nat)
    requires WellFormed(digits, w, fastNegate, pos)
    requires digits != [] ==> pos' <= digits[0].position
    ensures WellFormed(digits, w, fastNegate, pos')
  {}

  /** A digit goes into the bucket of its size, with its sign and its power of two. */
  lemma DigitIntoBucket(coeff: seq<int>, value: int, position: nat)
    requires value % 2 == 1
    requires (if value < 0 then -value else value) / 2 < |coeff|
    ensures var x := if value < 0 then 0 - Pow2(position) else Pow2(position);
            var i := (if value < 0 then -value else value) / 2;
            Weighted(coeff[i := coeff[i] + x], 0) == Weighted(coeff, 0) + value * Pow2(position)
  {
    var p: int := Pow2(position);
    if value < 0 {
      WeightedUpdate(coeff, (-value) / 2, 0 - p, 0);
      assert 2 * ((-value) / 2) + 1 == -value;
      assert (-value) * (0 - p) == value * p;
    } else {
      WeightedUpdate(coeff, value / 2, p, 0);
      assert 2 * (value / 2) + 1 == value;
    }
  }

  /** The body of the inner loop: if the slider's window starts at this bit, put g = 2^position·base
      into the bucket of its digit and move on. */
  method AddWindow<T(!new)>(
    G: Group<T>, base: T, s: WindowSlider, bucket: seq<T>, g: T, position: nat,
    ghost coeff: seq<int>, ghost e: nat, ghost limit: nat)
    returns (bucket': seq<T>, ghost coeff': seq<int>)
    requires IsAbelian(G) && G.elem(base) && s.fastNegate == G.inversionIsFast
    requires g == Multiple(G, Pow2(position), base)
    requires Tracks(G, base, s, bucket, coeff, e, position, limit)
    modifies s
    ensures Tracks(G, base, s, bucket', coeff', e, position + 1, limit)
  {
    hide *;
    if !s.finished && position == s.windowBegin {
      bucket', coeff' := AddToBucket(G, base, s, bucket, g, position, coeff, e, limit);
    } else {
      bucket', coeff' := bucket, coeff;
      TracksOn(G, base, s, bucket, coeff, e, position, limit);
    }
  }

  /** The window the slider stands on goes into its bucket, and the slider moves on. */
  method AddToBucket<T(!new)>(
    G: Group<T>, base: T, s: WindowSlider, bucket: seq<T>, g: T, position: nat,
    ghost coeff: seq<int>, ghost e: nat, ghost limit: nat)
    returns (bucket': seq<T>, ghost coeff': seq<int>)
    requires IsAbelian(G) && G.elem(base) && s.fastNegate == G.inversionIsFast
    requires g == Multiple(G, Pow2(position), base) && !s.finished && position == s.windowBegin
    requires Tracks(G, base, s, bucket, coeff, e, position, limit)
    modifies s
    ensures Tracks(G, base, s, bucket', coeff', e, position + 1, limit)
  {
    hide IsAbelian, Multiple, Weighted;
    ghost var d := s.Current();
    ghost var w, fast := s.windowSize, s.fastNegate;
    assert s.Remaining()[0] == d && s.Remaining()[1..] == s.Ahead();
    WellFormedLater(s.Ahead(), w, fast, position + w, position + 1);
    DigitIntoBucket(coeff, d.value, position);
    var i := s.expWindow / 2;
    MultipleNeg(G, Pow2(position), base);
    ghost var x := if d.value < 0 then 0 - Pow2(position) else Pow2(position);
    MultipleAdd(G, coeff[i], x, base);
    coeff' := coeff[i := coeff[i] + x];
    if s.negateNext {
      bucket' := bucket[i := G.add(bucket[i], G.neg(g))];
    } else {
      bucket' := bucket[i := G.add(bucket[i], g)];
    }
    s.FindNextWindow();
  }

  /** Nothing happens at a bit where no window begins. */
  lemma TracksOn<T(!new)>(
    G: Group<T>, base: T, s: WindowSlider, bucket: seq<T>, coeff: seq<int>, e: nat, position: nat, limit: nat)
    requires Tracks(G, base, s, bucket, coeff, e, position, limit) && (s.finished || position != s.windowBegin)
    ensures Tracks(G, base, s, bucket, coeff, e, position + 1, limit)
  {
    hide Multiple, Weighted;
    WellFormedLater(s.Remaining(), s.windowSize, s.fastNegate, position, position + 1);
  }

  /** The exponents from index `from` to `to`, each in the middle of its run before bit `position`. */
  ghost predicate AllTrack<T(!new)>(
    G: Group<T>, base: T, sliders: seq<WindowSlider>, buckets: seq<seq<T>>, coeffs: seq<seq<int>>,
    exps: seq<nat>, from: nat, to: nat, position: nat, limit: nat)
    reads sliders
  {
    && |sliders| == |buckets| == |coeffs| && from <= to <= |sliders| <= |exps|
    && forall k :: from <= k < to ==>
         sliders[k].fastNegate == G.inversionIsFast
         && Tracks(G, base, sliders[k], buckets[k], coeffs[k], exps[k], position, limit)
  }

  ghost predicate Distinct(sliders: seq<WindowSlider>) {
    forall k, l :: 0 <= k < l < |sliders| ==> sliders[k] != sliders[l]
  }

  /** exps[i]·base for every i, in one pass over the bits. */
  method SimultaneousMultiply<T(!new)>(G: Group<T>, base: T, exps: seq<nat>) returns (results: seq<T>)
    requires IsAbelian(G) && G.elem(base)
    ensures |results| == |exps|
    ensures forall i :: 0 <= i < |exps| ==> results[i] == Multiple(G, exps[i], base)
  {
    var sliders, buckets, coeffs, limit := StartAll(G, base, exps);
    buckets, coeffs := PassAllBits(G, base, sliders, buckets, coeffs, exps, limit);
    results := CollectAll(G, base, buckets, coeffs, exps);
  }

  /** The loop over bit positions, with g = 2^position·base. It stops when no slider has a window
      left, and then every exponent has gone into its buckets. */
  method PassAllBits<T(!new)>(
    G: Group<T>, base: T, sliders: seq<WindowSlider>, buckets: seq<seq<T>>,
    ghost coeffs: seq<seq<int>>, ghost exps: seq<nat>, ghost limit: nat)
    returns (buckets': seq<seq<T>>, ghost coeffs': seq<seq<int>>)
    requires IsAbelian(G) && G.elem(base) && Distinct(sliders) && |exps| == |sliders|
    requires AllTrack(G, base, sliders, buckets, coeffs, exps, 0, |sliders|, 0, limit)
    modifies sliders
    ensures AllCollectable(G, base, buckets', coeffs', exps)
  {
    MultipleOne(G, base);
    assert base == Multiple(G, Pow2(0), base);
    hide AllTrack, AllCollectable, Distinct, IsAbelian, Multiple, Pow2;
    buckets', coeffs' := buckets, coeffs;
    var position, g, notDone := 0, base, true;
    while notDone
      invariant g == Multiple(G, Pow2(position), base)
      invariant if notDone then AllTrack(G, base, sliders, buckets', coeffs', exps, 0, |sliders|, position, limit)
                else AllCollectable(G, base, buckets', coeffs', exps)
      invariant position <= limit
      decreases limit - position, notDone
    {
      buckets', coeffs', notDone := PassBit(G, base, sliders, buckets', g, position, coeffs', exps, limit);
      if notDone {
        MultipleTwice(G, position, base);
        g := G.add(g, g);
        position := position + 1;
      }
    }
  }

  /** Buckets into which the whole of an exponent has gone. */
  ghost predicate Collectable<T(!new)>(G: Group<T>, base: T, bucket: seq<T>, coeff: seq<int>, e: nat) {
    |bucket| > 0 && Holds(G, base, bucket, coeff) && Weighted(coeff, 0) == e
  }

  ghost predicate AllCollectable<T(!new)>(
    G: Group<T>, base: T, buckets: seq<seq<T>>, coeffs: seq<seq<int>>, exps: seq<nat>)
  {
    && |buckets| == |coeffs| == |exps|
    && forall k :: 0 <= k < |exps| ==> Collectable(G, base, buckets[k], coeffs[k], exps[k])
  }

  /** The last loop, over the rows of buckets. */
  method CollectAll<T(!new)>(
    G: Group<T>, base: T, buckets: seq<seq<T>>, ghost coeffs: seq<seq<int>>, ghost exps: seq<nat>)
    returns (results: seq<T>)
    requires IsAbelian(G) && G.elem(base) && AllCollectable(G, base, buckets, coeffs, exps)
    ensures |results| == |exps|
    ensures forall i :: 0 <= i < |exps| ==> results[i] == Multiple(G, exps[i], base)
  {
    hide IsAbelian, Multiple, Holds, Weighted;
    results := [];
    for i := 0 to |buckets|
      invariant |results| == i
      invariant forall k :: 0 <= k < i ==> results[k] == Multiple(G, exps[k], base)
    {
      var r := CollectBuckets(G, buckets[i], base, coeffs[i]);
      results := results + [r];
    }
  }

  /** The first loop: each exponent gets its slider, standing on the first window, and a row of
      empty buckets. */
  method StartAll<T(!new)>(G: Group<T>, base: T, exps: seq<nat>)
    returns (sliders: seq<WindowSlider>, buckets: seq<seq<T>>, ghost coeffs: seq<seq<int>>, ghost limit: nat)
    requires IsAbelian(G) && G.elem(base)
    ensures |sliders| == |exps| && Distinct(sliders) && fresh(sliders)
    ensures AllTrack(G, base, sliders, buckets, coeffs, exps, 0, |exps|, 0, limit)
  {
    hide Tracks, IsAbelian;
    sliders, buckets, coeffs, limit := [], [], [], 0;
    for i := 0 to |exps|
      invariant |sliders| == i && Distinct(sliders) && fresh(sliders)
      invariant AllTrack(G, base, sliders, buckets, coeffs, exps, 0, i, 0, limit)
    {
      var s, bucket, c, l := Start(G, base, exps[i], limit);
      forall k | 0 <= k < i ensures Tracks(G, base, sliders[k], buckets[k], coeffs[k], exps[k], 0, l) {
        TracksBelow(G, base, sliders[k], buckets[k], coeffs[k], exps[k], 0, limit, l);
      }
      sliders, buckets, coeffs := sliders + [s], buckets + [bucket], coeffs + [c];
      limit := l;
    }
  }

  /** The loop over the exponents at one bit position. */
  method PassBit<T(!new)>(
    G: Group<T>, base: T, sliders: seq<WindowSlider>, buckets: seq<seq<T>>, g: T, position: nat,
    ghost coeffs: seq<seq<int>>, ghost exps: seq<nat>, ghost limit: nat)
    returns (buckets': seq<seq<T>>, ghost coeffs': seq<seq<int>>, notDone: bool)
    requires IsAbelian(G) && G.elem(base) && Distinct(sliders) && |exps| == |sliders|
    requires g == Multiple(G, Pow2(position), base)
    requires AllTrack(G, base, sliders, buckets, coeffs, exps, 0, |sliders|, position, limit)
    modifies sliders
    ensures AllTrack(G, base, sliders, buckets', coeffs', exps, 0, |sliders|, position + 1, limit)
    ensures if notDone then position + 1 < limit else AllCollectable(G, base, buckets', coeffs', exps)
  {
    hide Tracks, IsAbelian, Multiple, Pow2;
    buckets', coeffs', notDone := buckets, coeffs, false;
    for i := 0 to |sliders|
      invariant AllTrack(G, base, sliders, buckets', coeffs', exps, 0, i, position + 1, limit)
      invariant AllTrack(G, base, sliders, buckets', coeffs', exps, i, |sliders|, position, limit)
      invariant notDone <==> exists k :: 0 <= k < i && !sliders[k].finished
    {
      var bucket, c := AddWindow(G, base, sliders[i], buckets'[i], g, position, coeffs'[i], exps[i], limit);
      buckets', coeffs' := buckets'[i := bucket], coeffs'[i := c];
      notDone := notDone || !sliders[i].finished;
    }
    if notDone {
      AllAhead(G, base, sliders, buckets', coeffs', exps, position + 1, limit);
    } else {
      AllFinished(G, base, sliders, buckets', coeffs', exps, position + 1, limit);
    }
  }

  lemma MultipleTwice<T(!new)>(G: Group<T>, position: nat, base: T)
    requires IsAbelian(G) && G.elem(base)
    ensures var g := Multiple(G, Pow2(position), base);
            G.add(g, g) == Multiple(G, Pow2(position + 1), base)
  {
    MultipleAdd(G, Pow2(position), Pow2(position), base);
  }

  lemma TracksBelow<T(!new)>(
    G: Group<T>, base: T, s: WindowSlider, bucket: seq<T>, coeff: seq<int>,
    e: nat, position: nat, limit: nat, limit': nat)
    requires Tracks(G, base, s, bucket, coeff, e, position, limit) && limit <= limit'
    ensures Tracks(G, base, s, bucket, coeff, e, position, limit')
  {}

  /** A slider that is not finished has a window at or after the position. */
  lemma TracksAhead<T(!new)>(
    G: Group<T>, base: T, s: WindowSlider, bucket: seq<T>, coeff: seq<int>,
    e: nat, position: nat, limit: nat)
    requires Tracks(G, base, s, bucket, coeff, e, position, limit) && !s.finished
    ensures position < limit
  {
    assert position <= s.Remaining()[0].position;
  }

  lemma AllAhead<T(!new)>(
    G: Group<T>, base: T, sliders: seq<WindowSlider>, buckets: seq<seq<T>>, coeffs: seq<seq<int>>,
    exps: seq<nat>, position: nat, limit: nat)
    requires |exps| == |sliders|
    requires AllTrack(G, base, sliders, buckets, coeffs, exps, 0, |exps|, position, limit)
    requires exists k :: 0 <= k < |sliders| && !sliders[k].finished
    ensures position < limit
  {
    var k :| 0 <= k < |sliders| && !sliders[k].finished;
    TracksAhead(G, base, sliders[k], buckets[k], coeffs[k], exps[k], position, limit);
  }

  lemma AllFinished<T(!new)>(
    G: Group<T>, base: T, sliders: seq<WindowSlider>, buckets: seq<seq<T>>, coeffs: seq<seq<int>>,
    exps: seq<nat>, position: nat, limit: nat)
    requires |exps| == |sliders|
    requires AllTrack(G, base, sliders, buckets, coeffs, exps, 0, |exps|, position, limit)
    requires forall k :: 0 <= k < |sliders| ==> sliders[k].finished
    ensures AllCollectable(G, base, buckets, coeffs, exps)
  {
    forall k | 0 <= k < |exps| ensures Collectable(G, base, buckets[k], coeffs[k], exps[k]) {
      TracksFinished(G, base, sliders[k], buckets[k], coeffs[k], exps[k], position, limit);
    }
  }

  /** A slider that is finished has left the whole exponent in the buckets. */
  lemma TracksFinished<T(!new)>(
    G: Group<T>, base: T, s: WindowSlider, bucket: seq<T>, coeff: seq<int>,
    e: nat, position: nat, limit: nat)
    requires Tracks(G, base, s, bucket, coeff, e, position, limit) && s.finished
    ensures Collectable(G, base, bucket, coeff, e)
  {}

  /** The slider and the buckets of one exponent. */
  method Start<T(!new)>(G: Group<T>, base: T, e: nat, ghost limit: nat)
    returns (s: WindowSlider, bucket: seq<T>, ghost coeff: seq<int>, ghost limit': nat)
    requires IsAbelian(G) && G.elem(base)
    ensures fresh(s) && s.fastNegate == G.inversionIsFast && limit <= limit'
    ensures Tracks(G, base, s, bucket, coeff, e, 0, limit')
  {
    s := new WindowSlider(e, G.inversionIsFast, 0);
    s.FindNextWindow();
    bucket := seq(Pow2(s.windowSize - 1), _ => G.zero);
    coeff := seq(Pow2(s.windowSize - 1), _ => 0);
    WeightedZeros(Pow2(s.windowSize - 1), 0);
    SliderDigits(e, s.windowSize, s.fastNegate);
    limit' := if limit < Limit(s.Remaining()) then Limit(s.Remaining()) else limit;
  }

  /** One exponent is a list of one. */
  method ScalarMultiply<T(!new)>(G: Group<T>, base: T, exponent: nat) returns (result: T)
    requires IsAbelian(G) && G.elem(base)
    ensures result == Multiple(G, exponent, base)
  {
    var results := SimultaneousMultiply(G, base, [exponent]);
    result := results[0];
  }
}
