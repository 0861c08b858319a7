/** Scalar multiplication on an elliptic curve (ecp.cpp): one run of projective doublings shared by
    all exponents, 5-bit signed windows, one shared inversion, and a cascade per exponent. The three
    methods call each other; that this ends is proved from the window size. */
module EcpMultiplication {
  import opened ByteStrings
  import opened BitMath
  import opened AbelianGroups
  import opened WindowSliders
  import opened Heaps
  import opened GeneralCascade
  import opened CascadeMultiplication
  import opened Fields
  import opened EllipticCurves
  import opened ProjectiveDoublings
  import opened ParallelInversion
  import ScalarMultiplication

  const WINDOW_SIZE: nat := 5

  /** A window of one exponent: its size, its sign, and which of the collected doublings it scales. */
  datatype Window = Window(size: nat, baseIndex: nat, negate: bool)

  /** The windows collected so far are the digits passed so far, each over the doubling of its position. */
  ghost predicate Matches<E(!new)>(
    F: Field<E>, G: Group<Point<E>>, P: Point<E>, bases: seq<ProjectivePoint<E>>,
    windows: seq<Window>, digits: seq<Digit>)
  {
    && |windows| == |digits|
    && forall k :: 0 <= k < |windows| ==> MatchesAt(F, G, P, bases, windows[k], digits[k])
  }

  ghost predicate MatchesAt<E(!new)>(
    F: Field<E>, G: Group<Point<E>>, P: Point<E>, bases: seq<ProjectivePoint<E>>, w: Window, d: Digit)
  {
    && w.size < 32
    && d.value == (if w.negate then -(w.size as int) else w.size)
    && w.baseIndex < |bases|
    && ToAffine(F, bases[w.baseIndex]) == Multiple(G, Pow2(d.position), P)
  }

  /** One exponent in the middle of the run, before bit `position`. */
  ghost predicate Tracks<E(!new)>(
    F: Field<E>, G: Group<Point<E>>, P: Point<E>, bases: seq<ProjectivePoint<E>>, s: WindowSlider,
    windows: seq<Window>, digits: seq<Digit>, e: nat, position: nat, limit: nat)
    reads s
  {
    && s.Valid() && !s.firstTime && s.windowSize == WINDOW_SIZE && s.fastNegate
    && digits + s.Remaining() == Recode(e, WINDOW_SIZE, true, 0)
    && WellFormed(s.Remaining(), WINDOW_SIZE, true, position)
    && ScalarMultiplication.PositionsBelow(s.Remaining(), limit)
    && Matches(F, G, P, bases, windows, digits)
  }

  lemma MatchesGrows<E(!new)>(
    F: Field<E>, G: Group<Point<E>>, P: Point<E>, bases: seq<ProjectivePoint<E>>, bases': seq<ProjectivePoint<E>>,
    windows: seq<Window>, digits: seq<Digit>)
    requires Matches(F, G, P, bases, windows, digits) && bases <= bases'
    ensures Matches(F, G, P, bases', windows, digits)
  {
    forall k | 0 <= k < |windows| ensures MatchesAt(F, G, P, bases', windows[k], digits[k]) {
      assert MatchesAt(F, G, P, bases, windows[k], digits[k]);
    }
  }

  lemma MatchesMore<E(!new)>(
    F: Field<E>, G: Group<Point<E>>, P: Point<E>, bases: seq<ProjectivePoint<E>>,
    windows: seq<Window>, digits: seq<Digit>, w: Window, d: Digit)
    requires Matches(F, G, P, bases, windows, digits) && MatchesAt(F, G, P, bases, w, d)
    ensures Matches(F, G, P, bases, windows + [w], digits + [d])
  {}

  /** The body of the inner loop: a window starting at this bit is recorded over the current doubling,
      which is collected if no other exponent has done so. */
  method AddWindow<E(!new, ==)>(
    F: Field<E>, ghost G: Group<Point<E>>, ghost P: Point<E>, current: ProjectivePoint<E>, s: WindowSlider,
    bases: seq<ProjectivePoint<E>>, baseAdded: bool, windows: seq<Window>, position: nat,
    ghost digits: seq<Digit>, ghost e: nat, ghost limit: nat)
    returns (bases': seq<ProjectivePoint<E>>, baseAdded': bool, windows': seq<Window>, ghost digits': seq<Digit>)
    requires ToAffine(F, current) == Multiple(G, Pow2(position), P)
    requires baseAdded ==> bases != [] && bases[|bases| - 1] == current
    requires Tracks(F, G, P, bases, s, windows, digits, e, position, limit)
    modifies s
    ensures bases <= bases' && (baseAdded' ==> bases' != [] && bases'[|bases'| - 1] == current)
    ensures Tracks(F, G, P, bases', s, windows', digits', e, position + 1, limit)
  {
    hide Tracks, Multiple, ToAffine, Pow2;
    bases', baseAdded', windows', digits' := bases, baseAdded, windows, digits;
    if !s.finished && position == s.windowBegin {
      if !baseAdded' {
        bases' := bases + [current];
        baseAdded' := true;
        TracksGrows(F, G, P, bases, bases', s, windows, digits, e, position, limit);
      }
      windows', digits' := RecordWindow(F, G, P, current, s, bases', windows, position, digits, e, limit);
    } else {
      TracksOn(F, G, P, bases, s, windows, digits, e, position, limit);
    }
  }

  /** Records the window the slider stands on over the last base, and moves the slider on. */
  method RecordWindow<E(!new, ==)>(
    F: Field<E>, ghost G: Group<Point<E>>, ghost P: Point<E>, ghost current: ProjectivePoint<E>, s: WindowSlider,
    bases: seq<ProjectivePoint<E>>, windows: seq<Window>, position: nat,
    ghost digits: seq<Digit>, ghost e: nat, ghost limit: nat)
    returns (windows': seq<Window>, ghost digits': seq<Digit>)
    requires ToAffine(F, current) == Multiple(G, Pow2(position), P)
    requires bases != [] && bases[|bases| - 1] == current && !s.finished && position == s.windowBegin
    requires Tracks(F, G, P, bases, s, windows, digits, e, position, limit)
    modifies s
    ensures Tracks(F, G, P, bases, s, windows', digits', e, position + 1, limit)
  {
    hide Multiple, ToAffine, Recode, Matches;
    ghost var d := s.Current();
    assert s.Remaining() == [d] + s.Ahead();
    assert Pow2(WINDOW_SIZE) == 32;
    var w := Window(s.expWindow, |bases| - 1, s.negateNext);
    windows', digits' := windows + [w], digits + [d];
    MatchesMore(F, G, P, bases, windows, digits, w, d);
    hide Pow2;
    AppendAssociates(digits, [d], s.Ahead());
    ScalarMultiplication.WellFormedLater(s.Ahead(), WINDOW_SIZE, true, position + WINDOW_SIZE, position + 1);
    s.FindNextWindow();
  }

  lemma TracksGrows<E(!new)>(
    F: Field<E>, G: Group<Point<E>>, P: Point<E>, bases: seq<ProjectivePoint<E>>, bases': seq<ProjectivePoint<E>>,
    s: WindowSlider, windows: seq<Window>, digits: seq<Digit>, e: nat, position: nat, limit: nat)
    requires Tracks(F, G, P, bases, s, windows, digits, e, position, limit) && bases <= bases'
    ensures Tracks(F, G, P, bases', s, windows, digits, e, position, limit)
  {
    MatchesGrows(F, G, P, bases, bases', windows, digits);
  }

  /** Nothing happens at a bit where no window begins. */
  lemma TracksOn<E(!new)>(
    F: Field<E>, G: Group<Point<E>>, P: Point<E>, bases: seq<ProjectivePoint<E>>,
    s: WindowSlider, windows: seq<Window>, digits: seq<Digit>, e: nat, position: nat, limit: nat)
    requires Tracks(F, G, P, bases, s, windows, digits, e, position, limit)
    requires s.finished || position != s.windowBegin
    ensures Tracks(F, G, P, bases, s, windows, digits, e, position + 1, limit)
  {
    hide Multiple, ToAffine, Recode, Matches;
    ScalarMultiplication.WellFormedLater(s.Remaining(), WINDOW_SIZE, true, position, position + 1);
  }

  /** The exponents from index `from` to `to`, each in the middle of the run before bit `position`. */
  ghost predicate AllTrack<E(!new)>(
    F: Field<E>, G: Group<Point<E>>, P: Point<E>, bases: seq<ProjectivePoint<E>>, sliders: seq<WindowSlider>,
    windows: seq<seq<Window>>, digits: seq<seq<Digit>>, exps: seq<nat>,
    from: nat, to: nat, position: nat, limit: nat)
    reads sliders
  {
    && |sliders| == |windows| == |digits| && from <= to <= |sliders| <= |exps|
    && forall k :: from <= k < to ==>
         Tracks(F, G, P, bases, sliders[k], windows[k], digits[k], exps[k], position, limit)
  }

  lemma AllTrackGrows<E(!new)>(
    F: Field<E>, G: Group<Point<E>>, P: Point<E>, bases: seq<ProjectivePoint<E>>, bases': seq<ProjectivePoint<E>>,
    sliders: seq<WindowSlider>, windows: seq<seq<Window>>, digits: seq<seq<Digit>>, exps: seq<nat>,
    from: nat, to: nat, position: nat, limit: nat)
    requires AllTrack(F, G, P, bases, sliders, windows, digits, exps, from, to, position, limit)
    requires bases <= bases'
    ensures AllTrack(F, G, P, bases', sliders, windows, digits, exps, from, to, position, limit)
  {
    forall k | from <= k < to
      ensures Tracks(F, G, P, bases', sliders[k], windows[k], digits[k], exps[k], position, limit)
    {
      TracksGrows(F, G, P, bases, bases', sliders[k], windows[k], digits[k], exps[k], position, limit);
    }
  }

  /** All digits of every exponent have been collected. */
  ghost predicate Collected<E(!new)>(
    F: Field<E>, G: Group<Point<E>>, P: Point<E>, bases: seq<ProjectivePoint<E>>,
    windows: seq<seq<Window>>, exps: seq<nat>)
  {
    && |windows| == |exps|
    && forall k :: 0 <= k < |exps| ==>
         Matches(F, G, P, bases, windows[k], Recode(exps[k], WINDOW_SIZE, true, 0))
  }

  /** Between two bit positions: all exponents in the middle of the run, or all collected. */
  ghost predicate Passed<E(!new)>(
    F: Field<E>, G: Group<Point<E>>, P: Point<E>, bases: seq<ProjectivePoint<E>>, sliders: seq<WindowSlider>,
    windows: seq<seq<Window>>, digits: seq<seq<Digit>>, exps: seq<nat>, position: nat, limit: nat, notDone: bool)
    reads sliders
  {
    if notDone then AllTrack(F, G, P, bases, sliders, windows, digits, exps, 0, |sliders|, position, limit)
    else Collected(F, G, P, bases, windows, exps)
  }

  /** The loop over the exponents at one bit position. */
  method PassBit<E(!new, ==)>(
    F: Field<E>, ghost G: Group<Point<E>>, ghost P: Point<E>, current: ProjectivePoint<E>,
    sliders: seq<WindowSlider>, bases: seq<ProjectivePoint<E>>, windows: seq<seq<Window>>, position: nat,
    ghost digits: seq<seq<Digit>>, ghost exps: seq<nat>, ghost limit: nat)
    returns (bases': seq<ProjectivePoint<E>>, windows': seq<seq<Window>>, ghost digits': seq<seq<Digit>>, notDone: bool)
    requires ToAffine(F, current) == Multiple(G, Pow2(position), P)
    requires ScalarMultiplication.Distinct(sliders) && |exps| == |sliders|
    requires Passed(F, G, P, bases, sliders, windows, digits, exps, position, limit, true)
    modifies sliders
    ensures Passed(F, G, P, bases', sliders, windows', digits', exps, position + 1, limit, notDone)
    ensures notDone ==> position + 1 < limit
  {
    hide Tracks, Multiple, ToAffine, Pow2;
    bases', windows', digits', notDone := bases, windows, digits, false;
    var baseAdded := false;
    for i := 0 to |sliders|
      invariant AllTrack(F, G, P, bases', sliders, windows', digits', exps, 0, i, position + 1, limit)
      invariant AllTrack(F, G, P, bases', sliders, windows', digits', exps, i, |sliders|, position, limit)
      invariant baseAdded ==> bases' != [] && bases'[|bases'| - 1] == current
      invariant notDone <==> exists k :: 0 <= k < i && !sliders[k].finished
    {
      var b, added, w, d := AddWindow(F, G, P, current, sliders[i], bases', baseAdded, windows'[i], position,
                                      digits'[i], exps[i], limit);
      AllTrackGrows(F, G, P, bases', b, sliders, windows', digits', exps, 0, i, position + 1, limit);
      AllTrackGrows(F, G, P, bases', b, sliders, windows', digits', exps, i + 1, |sliders|, position, limit);
      bases', baseAdded, windows', digits' := b, added, windows'[i := w], digits'[i := d];
      notDone := notDone || !sliders[i].finished;
    }
    if notDone {
      AllAhead(F, G, P, bases', sliders, windows', digits', exps, position + 1, limit);
    } else {
      AllFinished(F, G, P, bases', sliders, windows', digits', exps, position + 1, limit);
    }
  }

  lemma AllAhead<E(!new)>(
    F: Field<E>, G: Group<Point<E>>, P: Point<E>, bases: seq<ProjectivePoint<E>>, sliders: seq<WindowSlider>,
    windows: seq<seq<Window>>, digits: seq<seq<Digit>>, exps: seq<nat>, position: nat, limit: nat)
    requires AllTrack(F, G, P, bases, sliders, windows, digits, exps, 0, |sliders|, position, limit)
    requires exists k :: 0 <= k < |sliders| && !sliders[k].finished
    ensures position < limit
  {
    var k :| 0 <= k < |sliders| && !sliders[k].finished;
    assert Tracks(F, G, P, bases, sliders[k], windows[k], digits[k], exps[k], position, limit);
    assert position <= sliders[k].Remaining()[0].position;
  }

  lemma AllFinished<E(!new)>(
    F: Field<E>, G: Group<Point<E>>, P: Point<E>, bases: seq<ProjectivePoint<E>>, sliders: seq<WindowSlider>,
    windows: seq<seq<Window>>, digits: seq<seq<Digit>>, exps: seq<nat>, position: nat, limit: nat)
    requires |exps| == |sliders|
    requires AllTrack(F, G, P, bases, sliders, windows, digits, exps, 0, |sliders|, position, limit)
    requires forall k :: 0 <= k < |sliders| ==> sliders[k].finished
    ensures Collected(F, G, P, bases, windows, exps)
  {
    forall k | 0 <= k < |exps|
      ensures Matches(F, G, P, bases, windows[k], Recode(exps[k], WINDOW_SIZE, true, 0))
    {
      assert Tracks(F, G, P, bases, sliders[k], windows[k], digits[k], exps[k], position, limit);
      assert digits[k] + [] == digits[k];
    }
  }

  /** The first loop: each exponent gets a slider of five bits, standing on its first window. */
  method StartAll<E(!new, ==)>(F: Field<E>, ghost G: Group<Point<E>>, ghost P: Point<E>, exps: seq<nat>)
    returns (sliders: seq<WindowSlider>, windows: seq<seq<Window>>, ghost digits: seq<seq<Digit>>, ghost limit: nat)
    ensures |sliders| == |exps| && ScalarMultiplication.Distinct(sliders) && fresh(sliders)
    ensures Passed(F, G, P, [], sliders, windows, digits, exps, 0, limit, true)
  {
    hide Tracks;
    sliders, windows, digits, limit := [], [], [], 0;
    for i := 0 to |exps|
      invariant |sliders| == i && ScalarMultiplication.Distinct(sliders) && fresh(sliders)
      invariant AllTrack(F, G, P, [], sliders, windows, digits, exps, 0, i, 0, limit)
    {
      var s, l := Start(F, G, P, exps[i], limit);
      forall k | 0 <= k < i ensures Tracks(F, G, P, [], sliders[k], windows[k], digits[k], exps[k], 0, l) {
        TracksBelow(F, G, P, sliders[k], windows[k], digits[k], exps[k], limit, l);
      }
      sliders, windows, digits := sliders + [s], windows + [[]], digits + [[]];
      limit := l;
    }
  }

  lemma TracksBelow<E(!new)>(
    F: Field<E>, G: Group<Point<E>>, P: Point<E>, s: WindowSlider,
    windows: seq<Window>, digits: seq<Digit>, e: nat, limit: nat, limit': nat)
    requires Tracks(F, G, P, [], s, windows, digits, e, 0, limit) && limit <= limit'
    ensures Tracks(F, G, P, [], s, windows, digits, e, 0, limit')
  {}

  method Start<E(!new, ==)>(F: Field<E>, ghost G: Group<Point<E>>, ghost P: Point<E>, e: nat, ghost limit: nat)
    returns (s: WindowSlider, ghost limit': nat)
    ensures fresh(s) && limit <= limit' && Tracks(F, G, P, [], s, [], [], e, 0, limit')
  {
    s := new WindowSlider(e, true, WINDOW_SIZE);
    s.FindNextWindow();
    SliderDigits(e, WINDOW_SIZE, true);
    var rest := s.Remaining();
    assert [] + rest == rest;
    limit' := if limit < ScalarMultiplication.Limit(rest) then ScalarMultiplication.Limit(rest) else limit;
  }

  /** Everything the curve methods take for granted of their object and its points. */
  ghost predicate OnGroup<E(!new)>(F: Field<E>, a: E, b: E, P: Point<E>) {
    IsCurve(F, a, b) && CurveGroup(F, a, b).elem(P)
  }

  lemma GroupLaws<E(!new)>(F: Field<E>, a: E, b: E, P: Point<E>)
    requires OnGroup(F, a, b, P)
    ensures IsField(F) && IsAbelian(CurveGroup(F, a, b)) && CurveGroup(F, a, b).elem(P)
  {
    CurveIsAbelian(F, a, b);
  }

  lemma DoubledMultiple<E(!new)>(F: Field<E>, a: E, b: E, P: Point<E>, position: nat)
    requires OnGroup(F, a, b, P)
    ensures var G := CurveGroup(F, a, b);
            Doubled(F, a, Multiple(G, Pow2(position), P)) == Multiple(G, Pow2(position + 1), P)
  {
    GroupLaws(F, a, b, P);
    var G := CurveGroup(F, a, b);
    DoubleIsSum(F, a, Multiple(G, Pow2(position), P));
    MultipleAdd(G, Pow2(position), Pow2(position), P);
  }

  /** The loop over bit positions: the projective point stands for 2^position·P throughout. */
  method PassAllBits<E(!new, ==)>(
    F: Field<E>, a: E, ghost b: E, P: Point<E>, sliders: seq<WindowSlider>, windows: seq<seq<Window>>,
    ghost digits: seq<seq<Digit>>, ghost exps: seq<nat>, ghost limit: nat)
    returns (bases: seq<ProjectivePoint<E>>, windows': seq<seq<Window>>)
    requires OnGroup(F, a, b, P) && ScalarMultiplication.Distinct(sliders) && |exps| == |sliders|
    requires Passed(F, CurveGroup(F, a, b), P, [], sliders, windows, digits, exps, 0, limit, true)
    modifies sliders
    ensures Collected(F, CurveGroup(F, a, b), P, bases, windows', exps)
  {
    ghost var G := CurveGroup(F, a, b);
    GroupLaws(F, a, b, P);
    hide IsCurve, IsField, IsAbelian, AllTrack;
    MultipleOne(G, P);
    assert Pow2(0) == 1;
    hide *;
    var rd := new ProjectiveDoubling(F, a, P);
    ghost var digits' := digits;
    bases, windows' := [], windows;
    var position, notDone := 0, true;
    while notDone
      invariant fresh(rd) && rd.F == F && rd.a == a && rd.Valid()
      invariant notDone ==> ToAffine(F, rd.P) == Multiple(G, Pow2(position), P)
      invariant Passed(F, G, P, bases, sliders, windows', digits', exps, position, limit, notDone)
      invariant position <= limit
      decreases limit - position, notDone
    {
      bases, windows', digits', position, notDone :=
        PassOn(F, a, b, P, rd, sliders, bases, windows', position, digits', exps, limit);
    }
    AllCollected(F, G, P, bases, sliders, windows', digits', exps, position, limit);
  }

  /** One bit position, and the doubling to the next. */
  method PassOn<E(!new, ==)>(
    F: Field<E>, a: E, ghost b: E, ghost P: Point<E>, rd: ProjectiveDoubling<E>, sliders: seq<WindowSlider>,
    bases: seq<ProjectivePoint<E>>, windows: seq<seq<Window>>, position: nat,
    ghost digits: seq<seq<Digit>>, ghost exps: seq<nat>, ghost limit: nat)
    returns (bases': seq<ProjectivePoint<E>>, windows': seq<seq<Window>>, ghost digits': seq<seq<Digit>>,
             position': nat, notDone: bool)
    requires OnGroup(F, a, b, P) && ScalarMultiplication.Distinct(sliders) && |exps| == |sliders|
    requires rd.F == F && rd.a == a && rd.Valid()
    requires ToAffine(F, rd.P) == Multiple(CurveGroup(F, a, b), Pow2(position), P)
    requires Passed(F, CurveGroup(F, a, b), P, bases, sliders, windows, digits, exps, position, limit, true)
    modifies sliders, rd
    ensures rd.Valid() && position' == position + (if notDone then 1 else 0) && (notDone ==> position' < limit)
    ensures notDone ==> ToAffine(F, rd.P) == Multiple(CurveGroup(F, a, b), Pow2(position'), P)
    ensures Passed(F, CurveGroup(F, a, b), P, bases', sliders, windows', digits', exps, position', limit, notDone)
  {
    hide *;
    ghost var G := CurveGroup(F, a, b);
    bases', windows', digits', notDone := PassBit(F, G, P, rd.P, sliders, bases, windows, position, digits, exps,
      limit);
    if notDone {
      DoubledMultiple(F, a, b, P, position);
      rd.Double();
      position' := position + 1;
    } else {
      CollectedAnywhere(F, G, P, bases', sliders, windows', digits', exps, position + 1, position, limit);
      position' := position;
    }
  }

  lemma CollectedAnywhere<E(!new)>(
    F: Field<E>, G: Group<Point<E>>, P: Point<E>, bases: seq<ProjectivePoint<E>>, sliders: seq<WindowSlider>,
    windows: seq<seq<Window>>, digits: seq<seq<Digit>>, exps: seq<nat>, from: nat, to: nat, limit: nat)
    requires Passed(F, G, P, bases, sliders, windows, digits, exps, from, limit, false)
    ensures Passed(F, G, P, bases, sliders, windows, digits, exps, to, limit, false)
  {}

  lemma AllCollected<E(!new)>(
    F: Field<E>, G: Group<Point<E>>, P: Point<E>, bases: seq<ProjectivePoint<E>>, sliders: seq<WindowSlider>,
    windows: seq<seq<Window>>, digits: seq<seq<Digit>>, exps: seq<nat>, position: nat, limit: nat)
    requires Passed(F, G, P, bases, sliders, windows, digits, exps, position, limit, false)
    ensures Collected(F, G, P, bases, windows, exps)
  {}

  /** A base after the conversion loop: Z zero for the point at infinity, affine coordinates otherwise. */
  ghost predicate Converted<E(!new)>(F: Field<E>, c: ProjectivePoint<E>, P: ProjectivePoint<E>) {
    ToAffine(F, P) == if c.z == F.zero then Infinity else Affine(c.x, c.y)
  }

  ghost predicate AllConverted<E(!new)>(
    F: Field<E>, converted: seq<ProjectivePoint<E>>, bases: seq<ProjectivePoint<E>>)
  {
    |converted| == |bases| && forall k :: 0 <= k < |bases| ==> Converted(F, converted[k], bases[k])
  }

  /** From projective to affine coordinates, with one inversion for all bases. */
  method ConvertBases<E(!new, ==)>(F: Field<E>, bases: seq<ProjectivePoint<E>>)
    returns (converted: seq<ProjectivePoint<E>>)
    requires IsField(F)
    ensures AllConverted(F, converted, bases)
  {
    var zs := new E[|bases|](k requires 0 <= k < |bases| => bases[k].z);
    ParallelInvert(F, zs);
    hide IsField;
    converted := [];
    for i := 0 to |bases|
      invariant |converted| == i
      invariant forall k :: 0 <= k < i ==> Converted(F, converted[k], bases[k])
      invariant forall k :: 0 <= k < |bases| ==> zs[k] == F.inv(bases[k].z)
    {
      var x, y, z := bases[i].x, bases[i].y, zs[i];
      InvInv(F, bases[i].z);
      NoZeroDivisors(F, z, z);
      if z != F.zero {
        y := F.mul(y, z);
        z := F.Square(z);
        x := F.mul(x, z);
        y := F.mul(y, z);
      }
      converted := converted + [ProjectivePoint(x, y, z)];
    }
  }

  /** The point a window scales, with its sign. */
  ghost function SignedBase<E(!new)>(F: Field<E>, bases: seq<ProjectivePoint<E>>, w: Window): Point<E>
    requires w.baseIndex < |bases|
  {
    var base := ToAffine(F, bases[w.baseIndex]);
    if w.negate then Opposite(F, base) else base
  }

  /** The list handed to the cascade: every window's size over its signed point. */
  ghost predicate IsCascade<E(!new)>(
    F: Field<E>, bases: seq<ProjectivePoint<E>>, windows: seq<Window>, terms: seq<BaseAndExponent<Point<E>>>)
  {
    && |terms| == |windows|
    && forall k :: 0 <= k < |windows| ==>
         windows[k].baseIndex < |bases|
         && terms[k] == BaseAndExponent(SignedBase(F, bases, windows[k]), windows[k].size)
  }

  method BuildCascade<E(!new, ==)>(
    F: Field<E>, ghost bases: seq<ProjectivePoint<E>>, converted: seq<ProjectivePoint<E>>, windows: seq<Window>)
    returns (cascade: array<BaseAndExponent<Point<E>>>)
    requires AllConverted(F, converted, bases)
    requires forall k :: 0 <= k < |windows| ==> windows[k].baseIndex < |bases|
    ensures fresh(cascade) && IsCascade(F, bases, windows, cascade[..])
  {
    hide ToAffine;
    cascade := new BaseAndExponent<Point<E>>[|windows|](_ => BaseAndExponent(Infinity, 0));
    for j := 0 to |windows|
      invariant forall k :: 0 <= k < j ==>
                  cascade[k] == BaseAndExponent(SignedBase(F, bases, windows[k]), windows[k].size)
    {
      var base := converted[windows[j].baseIndex];
      assert Converted(F, base, bases[windows[j].baseIndex]);
      var point := if base.z == F.zero then Infinity
                   else Affine(base.x, if windows[j].negate then F.neg(base.y) else base.y);
      cascade[j] := BaseAndExponent(point, windows[j].size);
    }
  }

  /** A window's term is its digit's worth of the base point. */
  lemma WindowTerm<E(!new)>(
    F: Field<E>, a: E, b: E, P: Point<E>, bases: seq<ProjectivePoint<E>>, w: Window, d: Digit)
    requires OnGroup(F, a, b, P) && MatchesAt(F, CurveGroup(F, a, b), P, bases, w, d)
    ensures var G := CurveGroup(F, a, b);
            && G.elem(SignedBase(F, bases, w))
            && Multiple(G, w.size, SignedBase(F, bases, w)) == Multiple(G, d.value * Pow2(d.position), P)
  {
    GroupLaws(F, a, b, P);
    var G := CurveGroup(F, a, b);
    var m := Multiple(G, Pow2(d.position), P);
    MultipleIn(G, Pow2(d.position), P);
    if w.negate {
      assert SignedBase(F, bases, w) == G.neg(m);
      MultipleNeg(G, Pow2(d.position), P);
      NegIn(G, m);
      MultipleMultiple(G, w.size, 0 - Pow2(d.position), P);
      SignMoves(w.size, Pow2(d.position));
    } else {
      MultipleMultiple(G, w.size, Pow2(d.position), P);
    }
  }

  lemma SignMoves(s: int, p: int)
    ensures s * (0 - p) == (-s) * p
  {}

  /** The cascade sums the digits. */
  lemma {:induction false} CascadeSum<E(!new)>(
    F: Field<E>, a: E, b: E, P: Point<E>, bases: seq<ProjectivePoint<E>>,
    windows: seq<Window>, digits: seq<Digit>, terms: seq<BaseAndExponent<Point<E>>>)
    requires OnGroup(F, a, b, P) && Matches(F, CurveGroup(F, a, b), P, bases, windows, digits)
    requires IsCascade(F, bases, windows, terms)
    ensures var G := CurveGroup(F, a, b);
            BasesIn(G, terms) && SumOfMultiples(G, terms) == Multiple(G, SumOfDigits(digits), P)
    ensures forall k :: 0 <= k < |terms| ==> terms[k].exponent < 32
  {
    if terms == [] {
      assert SumOfDigits(digits) == 0;
    } else {
      var G := CurveGroup(F, a, b);
      CascadeTail(F, G, P, bases, windows, digits, terms);
      hide OnGroup, Matches, MatchesAt, IsCascade, CurveGroup, Multiple, Pow2, SignedBase, SumOfMultiples, BasesIn;
      CascadeSum(F, a, b, P, bases, windows[1..], digits[1..], terms[1..]);
      FirstTerm(F, a, b, P, windows[0], digits[0], bases, terms, SumOfDigits(digits[1..]));
      assert terms[0].exponent < 32 && forall k :: 0 < k < |terms| ==> terms[k] == terms[1..][k - 1];
    }
  }

  /** What holds of a list of windows holds of all but the first. */
  lemma CascadeTail<E(!new)>(
    F: Field<E>, G: Group<Point<E>>, P: Point<E>, bases: seq<ProjectivePoint<E>>,
    windows: seq<Window>, digits: seq<Digit>, terms: seq<BaseAndExponent<Point<E>>>)
    requires Matches(F, G, P, bases, windows, digits) && IsCascade(F, bases, windows, terms) && terms != []
    ensures MatchesAt(F, G, P, bases, windows[0], digits[0])
    ensures terms[0] == BaseAndExponent(SignedBase(F, bases, windows[0]), windows[0].size) && windows[0].size < 32
    ensures Matches(F, G, P, bases, windows[1..], digits[1..]) && IsCascade(F, bases, windows[1..], terms[1..])
  {
    assert MatchesAt(F, G, P, bases, windows[0], digits[0]);
    forall k | 0 <= k < |windows| - 1 ensures MatchesAt(F, G, P, bases, windows[1..][k], digits[1..][k]) {
      assert MatchesAt(F, G, P, bases, windows[k + 1], digits[k + 1]);
    }
  }

  /** The first term, in front of the sum of the others. */
  lemma FirstTerm<E(!new)>(
    F: Field<E>, a: E, b: E, P: Point<E>, w: Window, d: Digit, bases: seq<ProjectivePoint<E>>,
    terms: seq<BaseAndExponent<Point<E>>>, sum: int)
    requires OnGroup(F, a, b, P) && MatchesAt(F, CurveGroup(F, a, b), P, bases, w, d)
    requires terms != [] && terms[0] == BaseAndExponent(SignedBase(F, bases, w), w.size)
    requires BasesIn(CurveGroup(F, a, b), terms[1..])
    requires SumOfMultiples(CurveGroup(F, a, b), terms[1..]) == Multiple(CurveGroup(F, a, b), sum, P)
    ensures var G := CurveGroup(F, a, b);
            BasesIn(G, terms) && SumOfMultiples(G, terms) == Multiple(G, d.value * Pow2(d.position) + sum, P)
  {
    hide *;
    var G, x := CurveGroup(F, a, b), d.value * Pow2(d.position);
    GroupLaws(F, a, b, P);
    WindowTerm(F, a, b, P, bases, w, d);
    MultipleAdd(G, x, sum, P);
    SumUnfolds(G, terms);
  }

  /** ScalarMultiply of the curve: small exponents go to the general algorithm, others to the curve's. */
  method ScalarMultiply<E(!new, ==)>(F: Field<E>, a: E, b: E, P: Point<E>, k: nat) returns (result: Point<E>)
    requires OnGroup(F, a, b, P)
    ensures result == Multiple(CurveGroup(F, a, b), k, P)
    decreases if BitCount(k) <= 5 then 0 else 3
  {
    GroupLaws(F, a, b, P);
    var results: seq<Point<E>>;
    if BitCount(k) <= 5 {
      results := ScalarMultiplication.SimultaneousMultiply(CurveGroup(F, a, b), P, [k]);
    } else {
      results := SimultaneousMultiply(F, a, b, P, [k]);
    }
    result := results[0];
  }

  /** exps[i]·P for every i. A zero exponent would leave its cascade empty. */
  method SimultaneousMultiply<E(!new, ==)>(F: Field<E>, a: E, b: E, P: Point<E>, exps: seq<nat>)
    returns (results: seq<Point<E>>)
    requires OnGroup(F, a, b, P)
    requires forall i :: 0 <= i < |exps| ==> exps[i] >= 1
    ensures |results| == |exps|
    ensures forall i :: 0 <= i < |exps| ==> results[i] == Multiple(CurveGroup(F, a, b), exps[i], P)
    decreases 2
  {
    GroupLaws(F, a, b, P);
    hide IsCurve, IsField, IsAbelian, AllTrack, Matches;
    var sliders, windows;
    ghost var digits, limit;
    sliders, windows, digits, limit := StartAll(F, CurveGroup(F, a, b), P, exps);
    var bases;
    bases, windows := PassAllBits(F, a, b, P, sliders, windows, digits, exps, limit);
    var converted := ConvertBases(F, bases);
    results := MultiplyAll(F, a, b, P, bases, converted, windows, exps);
  }

  /** The last loop, over the exponents. */
  method MultiplyAll<E(!new, ==)>(
    F: Field<E>, a: E, b: E, ghost P: Point<E>, ghost bases: seq<ProjectivePoint<E>>,
    converted: seq<ProjectivePoint<E>>, windows: seq<seq<Window>>, ghost exps: seq<nat>)
    returns (results: seq<Point<E>>)
    requires OnGroup(F, a, b, P) && forall i :: 0 <= i < |exps| ==> exps[i] >= 1
    requires AllConverted(F, converted, bases)
    requires Collected(F, CurveGroup(F, a, b), P, bases, windows, exps)
    ensures |results| == |exps|
    ensures forall i :: 0 <= i < |exps| ==> results[i] == Multiple(CurveGroup(F, a, b), exps[i], P)
    decreases 1, 3
  {
    hide OnGroup, Matches, Recode, Multiple, AllConverted, CurveGroup;
    results := [];
    for i := 0 to |windows|
      invariant |results| == i
      invariant forall k :: 0 <= k < i ==> results[k] == Multiple(CurveGroup(F, a, b), exps[k], P)
    {
      var r := MultiplyWindows(F, a, b, P, bases, converted, windows[i], exps[i]);
      results := results + [r];
    }
  }

  /** The last loop's body: one exponent's cascade. */
  method MultiplyWindows<E(!new, ==)>(
    F: Field<E>, a: E, b: E, ghost P: Point<E>, ghost bases: seq<ProjectivePoint<E>>,
    converted: seq<ProjectivePoint<E>>, windows: seq<Window>, ghost e: nat)
    returns (result: Point<E>)
    requires OnGroup(F, a, b, P) && e >= 1
    requires AllConverted(F, converted, bases)
    requires Matches(F, CurveGroup(F, a, b), P, bases, windows, Recode(e, WINDOW_SIZE, true, 0))
    ensures result == Multiple(CurveGroup(F, a, b), e, P)
    decreases 1, 2
  {
    ghost var G := CurveGroup(F, a, b);
    ghost var digits := Recode(e, WINDOW_SIZE, true, 0);
    GroupLaws(F, a, b, P);
    hide IsCurve;
    forall k | 0 <= k < |windows| ensures windows[k].baseIndex < |bases| {
      assert MatchesAt(F, G, P, bases, windows[k], digits[k]);
    }
    SliderDigits(e, WINDOW_SIZE, true);
    var cascade := BuildCascade(F, bases, converted, windows);
    CascadeSum(F, a, b, P, bases, windows, digits, cascade[..]);
    result := GeneralCascadeMultiplication(F, a, b, cascade);
  }

  /** GeneralCascadeMultiplication with the curve as its group. No quotient is longer than the five
      bits of a window, so every multiplication it asks for takes the first branch of ScalarMultiply. */
  method GeneralCascadeMultiplication<E(!new, ==)>(
    F: Field<E>, a: E, b: E, terms: array<BaseAndExponent<Point<E>>>)
    returns (result: Point<E>)
    requires IsCurve(F, a, b) && BasesIn(CurveGroup(F, a, b), terms[..])
    requires terms.Length >= 1 && forall k :: 0 <= k < terms.Length ==> terms[k].exponent < 32
    modifies terms
    ensures result == SumOfMultiples(CurveGroup(F, a, b), old(terms[..]))
    decreases 1, 1
  {
    CurveIsAbelian(F, a, b);
    hide IsCurve, IsField, IsAbelian;
    var G := CurveGroup(F, a, b);
    ghost var sum := SumOfMultiples(G, terms[..]);
    var last := terms.Length - 1;
    if terms.Length == 1 {
      SumOfOne(G, terms[0]);
      assert terms[..] == [terms[0]];
      ShortExponent(terms[0].exponent);
      result := ScalarMultiply(F, a, b, terms[0].base, terms[0].exponent);
    } else if terms.Length == 2 {
      SumOfTwo(G, terms[..]);
      result := CascadeScalarMultiply(G, terms[0].base, terms[0].exponent, terms[1].base, terms[1].exponent);
    } else {
      hide IsAbelian, IsField, BasesIn;
      result := LongCascade(F, a, b, terms);
    }
  }

  method LongCascade<E(!new, ==)>(F: Field<E>, a: E, b: E, terms: array<BaseAndExponent<Point<E>>>)
    returns (result: Point<E>)
    requires IsCurve(F, a, b) && BasesIn(CurveGroup(F, a, b), terms[..])
    requires terms.Length > 2 && forall k :: 0 <= k < terms.Length ==> terms[k].exponent < 32
    modifies terms
    ensures result == SumOfMultiples(CurveGroup(F, a, b), old(terms[..]))
    decreases 1, 1, 0
  {
    CurveIsAbelian(F, a, b);
    hide *;
    var G := CurveGroup(F, a, b);
    ghost var sum := SumOfMultiples(G, terms[..]);
    var last := terms.Length - 1;
    StartCascade(G, terms);
    assert terms[last] in multiset(terms[..]);
    while terms[0].exponent != 0
      invariant Cascading(G, terms[..], sum) && terms[last].exponent < 32
      decreases Total(terms[..])
    {
      CascadeStep(F, a, b, terms, sum);
    }
    OnlyLastLeft(G, terms[..], sum);
    ShortExponent(terms[last].exponent);
    OnGroupAt(F, a, b, terms[last].base);
    result := ScalarMultiply(F, a, b, terms[last].base, terms[last].exponent);
  }

  lemma OnGroupAt<E(!new)>(F: Field<E>, a: E, b: E, P: Point<E>)
    requires IsCurve(F, a, b) && CurveGroup(F, a, b).elem(P)
    ensures OnGroup(F, a, b, P)
  {}

  /** One step: the last exponent becomes its remainder, and the first base takes in the quotient's worth. */
  method CascadeStep<E(!new, ==)>(
    F: Field<E>, a: E, b: E, terms: array<BaseAndExponent<Point<E>>>, ghost sum: Point<E>)
    requires IsCurve(F, a, b) && Cascading(CurveGroup(F, a, b), terms[..], sum)
    requires terms.Length > 2 && terms[0].exponent != 0 && terms[terms.Length - 1].exponent < 32
    modifies terms
    ensures Cascading(CurveGroup(F, a, b), terms[..], sum) && Total(terms[..]) < Total(old(terms[..]))
    ensures terms[terms.Length - 1].exponent < 32
    decreases 1, 0, 1
  {
    CurveIsAbelian(F, a, b);
    hide *;
    var G := CurveGroup(F, a, b);
    var last := terms.Length - 1;
    EndsIn(G, terms[..], sum);
    var q, r := Divide(terms[last].exponent, terms[0].exponent);
    OnGroupAt(F, a, b, terms[last].base);
    var first := Absorb(F, a, b, terms[0].base, terms[last].base, q);
    FinishStep(G, terms, first, q, r, sum);
  }

  /** The first base plus the quotient's worth of the last, with no multiplication for one. */
  method Absorb<E(!new, ==)>(F: Field<E>, a: E, b: E, base: Point<E>, other: Point<E>, q: nat)
    returns (first: Point<E>)
    requires OnGroup(F, a, b, other) && q < 32
    ensures first == CurveGroup(F, a, b).add(base, Multiple(CurveGroup(F, a, b), q, other))
    decreases 1, 0, 0
  {
    GroupLaws(F, a, b, other);
    if q == 1 {
      MultipleOne(CurveGroup(F, a, b), other);
      first := CurveGroup(F, a, b).add(base, other);
    } else {
      ShortExponent(q);
      var multiple := ScalarMultiply(F, a, b, other, q);
      first := CurveGroup(F, a, b).add(base, multiple);
    }
  }

  lemma ShortExponent(k: nat)
    requires k < 32
    ensures BitCount(k) <= 5
  {
    assert Pow2(5) == 32;
    BitCountAtMost(k, 5);
  }
}
