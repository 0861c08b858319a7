/** e1·x + e2·y by one table and one scan over both exponents (algebra.cpp,
    AbstractGroup::CascadeScalarMultiply). */
module CascadeMultiplication {
  import opened BitMath
  import opened AbelianGroups

  /** A table slot; reading one needs a proof that it has been filled. */
  datatype Slot<T> = Empty | Filled(value: T)

  /** The three table widths the algorithm picks from: 2, 4 and 8. */
  predicate IsTableSize(ts: nat) {
    ts == 2 || ts == 4 || ts == 8
  }

  function WindowFor(expLen: nat): (w: nat)
    ensures 1 <= w <= 3
  {
    if expLen <= 46 then 1 else if expLen <= 260 then 2 else 3
  }

  lemma TableSizes(w: nat)
    requires 1 <= w <= 3
    ensures IsTableSize(Pow2(w)) && (w == 1 <==> Pow2(w) == 2)
  {
    assert Pow2(1) == 2;
    assert Pow2(2) == 4;
    assert Pow2(3) == 8;
  }

  /** The multiple of x in slot `k`. */
  function Column(ts: nat, k: nat): nat
    requires IsTableSize(ts)
  {
    if ts == 2 then k % 2 else if ts == 4 then k % 4 else k % 8
  }

  /** The multiple of y in slot `k`. */
  function Row(ts: nat, k: nat): nat
    requires IsTableSize(ts)
  {
    if ts == 2 then k / 2 else if ts == 4 then k / 4 else k / 8
  }

  /** The slot of column·x + row·y. */
  function Index(ts: nat, column: nat, row: nat): (k: nat)
    requires IsTableSize(ts) && column < ts && row < ts
    ensures k < ts * ts && Column(ts, k) == column && Row(ts, k) == row
  {
    if ts == 2 then row * 2 + column else if ts == 4 then row * 4 + column else row * 8 + column
  }

  lemma IndexIsShifted(ts: nat, column: nat, row: nat)
    requires IsTableSize(ts) && column < ts && row < ts
    ensures Index(ts, column, row) == row * ts + column
  {}

  /** The slot holds column·x + row·y. */
  ghost predicate Entry<T(!new)>(G: Group<T>, x: T, y: T, slot: Slot<T>, column: nat, row: nat) {
    slot == Filled(Combination(G, column, x, row, y))
  }

  /** What the scan relies on: every slot whose coordinates are not both even is filled. */
  ghost predicate Complete<T(!new)>(G: Group<T>, x: T, y: T, ts: nat, table: array<Slot<T>>)
    reads table
  {
    && IsTableSize(ts) && table.Length == ts * ts
    && forall c, r {:trigger Index(ts, c, r)} :: 0 <= c < ts && 0 <= r < ts && (c % 2 == 1 || r % 2 == 1) ==>
              Entry(G, x, y, table[Index(ts, c, r)], c, r)
  }

  method BuildTable<T(!new)>(G: Group<T>, x: T, y: T, w: nat) returns (table: array<Slot<T>>)
    requires IsAbelian(G) && G.elem(x) && G.elem(y) && 1 <= w <= 3
    ensures fresh(table) && Complete(G, x, y, Pow2(w), table)
  {
    TableSizes(w);
    CombinationUnits(G, x, y);
    var ts := Pow2(w);
    hide IsAbelian, Combination, Pow2, Column, Row;
    table := new Slot<T>[ts * ts](_ => Empty);
    table[1] := Filled(x);
    table[ts] := Filled(y);
    if w == 1 {
      CombinationAdd(G, 1, 0, 0, 1, x, y);
      table[3] := Filled(G.add(x, y));
    } else {
      CombinationAdd(G, 1, 0, 1, 0, x, y);
      CombinationAdd(G, 0, 1, 0, 1, x, y);
      table[2] := Filled(G.add(x, x));
      table[2 * ts] := Filled(G.add(y, y));
      FillFirstRow(G, x, y, ts, table);
      FillOddColumns(G, x, y, ts, table);
      FillFirstColumn(G, x, y, ts, table);
      FillOddRows(G, x, y, ts, table);
    }
  }

  /** The first loop: the odd multiples of x. */
  method FillFirstRow<T(!new)>(G: Group<T>, x: T, y: T, ts: nat, table: array<Slot<T>>)
    requires IsAbelian(G) && G.elem(x) && G.elem(y) && (ts == 4 || ts == 8) && table.Length == ts * ts
    requires Entry(G, x, y, table[Index(ts, 1, 0)], 1, 0) && Entry(G, x, y, table[Index(ts, 2, 0)], 2, 0)
    modifies table
    ensures forall c {:trigger Index(ts, c, 0)} :: 0 <= c < ts && c % 2 == 1 ==>
              Entry(G, x, y, table[Index(ts, c, 0)], c, 0)
    ensures forall r {:trigger Index(ts, 0, r)} :: 0 <= r < ts ==>
              table[Index(ts, 0, r)] == old(table[Index(ts, 0, r)])
  {
    hide IsAbelian, Combination, Column, Row;
    var i := 3;
    while i < ts
      invariant 3 <= i <= ts + 1 && i % 2 == 1
      invariant forall c {:trigger Index(ts, c, 0)} :: 0 <= c < i && c < ts && c % 2 == 1 ==>
                Entry(G, x, y, table[Index(ts, c, 0)], c, 0)
      invariant Entry(G, x, y, table[Index(ts, 2, 0)], 2, 0)
      invariant forall r {:trigger Index(ts, 0, r)} :: 0 <= r < ts ==>
                table[Index(ts, 0, r)] == old(table[Index(ts, 0, r)])
    {
      CombinationAdd(G, i - 2, 0, 2, 0, x, y);
      assert Entry(G, x, y, table[Index(ts, i - 2, 0)], i - 2, 0);
      assert Index(ts, i, 0) == i;
      table[i] := Filled(G.add(table[i - 2].value, table[2].value));
      i := i + 2;
    }
  }

  /** The second pair of loops: above each odd multiple of x, its column. */
  method FillOddColumns<T(!new)>(G: Group<T>, x: T, y: T, ts: nat, table: array<Slot<T>>)
    requires IsAbelian(G) && G.elem(x) && G.elem(y) && (ts == 4 || ts == 8) && table.Length == ts * ts
    requires forall c {:trigger Index(ts, c, 0)} :: 0 <= c < ts && c % 2 == 1 ==>
              Entry(G, x, y, table[Index(ts, c, 0)], c, 0)
    requires y == Combination(G, 0, x, 1, y)
    modifies table
    ensures OddColumns(G, x, y, ts, table, ts)
    ensures forall r {:trigger Index(ts, 0, r)} :: 0 <= r < ts ==>
              table[Index(ts, 0, r)] == old(table[Index(ts, 0, r)])
  {
    hide IsAbelian, Combination, Column, Row;
    var i := 1;
    while i < ts
      invariant 1 <= i <= ts + 1 && i % 2 == 1
      invariant forall c {:trigger Index(ts, c, 0)} :: 0 <= c < ts && c % 2 == 1 ==>
                Entry(G, x, y, table[Index(ts, c, 0)], c, 0)
      invariant OddColumns(G, x, y, ts, table, i)
      invariant forall r {:trigger Index(ts, 0, r)} :: 0 <= r < ts ==>
                table[Index(ts, 0, r)] == old(table[Index(ts, 0, r)])
    {
      FillColumn(G, x, y, ts, table, i);
      i := i + 2;
    }
  }

  /** The odd columns below `bound` are filled in every row. */
  ghost predicate OddColumns<T(!new)>(G: Group<T>, x: T, y: T, ts: nat, table: array<Slot<T>>, bound: nat)
    reads table
    requires IsTableSize(ts) && table.Length == ts * ts
  {
    forall c, r {:trigger Index(ts, c, r)} :: 0 <= c < ts && c < bound && c % 2 == 1 && 0 <= r < ts ==>
              Entry(G, x, y, table[Index(ts, c, r)], c, r)
  }

  method FillColumn<T(!new)>(G: Group<T>, x: T, y: T, ts: nat, table: array<Slot<T>>, i: nat)
    requires IsAbelian(G) && G.elem(x) && G.elem(y) && (ts == 4 || ts == 8) && table.Length == ts * ts
    requires i < ts && Entry(G, x, y, table[Index(ts, i, 0)], i, 0) && y == Combination(G, 0, x, 1, y)
    modifies table
    ensures forall r {:trigger Index(ts, i, r)} :: 0 <= r < ts ==> Entry(G, x, y, table[Index(ts, i, r)], i, r)
    ensures forall c, r {:trigger Index(ts, c, r)} :: 0 <= c < ts && 0 <= r < ts && c != i ==>
              table[Index(ts, c, r)] == old(table[Index(ts, c, r)])
  {
    hide IsAbelian, Combination, Column, Row;
    var j := i + ts;
    ghost var row := 1;
    while j < ts * ts
      invariant 1 <= row <= ts && if row < ts then j == Index(ts, i, row) else j >= ts * ts
      invariant forall r {:trigger Index(ts, i, r)} :: 0 <= r < row ==> Entry(G, x, y, table[Index(ts, i, r)], i, r)
      invariant forall c, r {:trigger Index(ts, c, r)} :: 0 <= c < ts && 0 <= r < ts && c != i ==>
                  table[Index(ts, c, r)] == old(table[Index(ts, c, r)])
    {
      CombinationAdd(G, i, row - 1, 0, 1, x, y);
      assert Entry(G, x, y, table[Index(ts, i, row - 1)], i, row - 1);
      table[j] := Filled(G.add(table[j - ts].value, y));
      j := j + ts;
      row := row + 1;
    }
  }

  /** The third loop: the odd multiples of y. */
  method FillFirstColumn<T(!new)>(G: Group<T>, x: T, y: T, ts: nat, table: array<Slot<T>>)
    requires IsAbelian(G) && G.elem(x) && G.elem(y) && (ts == 4 || ts == 8) && table.Length == ts * ts
    requires OddColumns(G, x, y, ts, table, ts)
    requires Entry(G, x, y, table[Index(ts, 0, 1)], 0, 1) && Entry(G, x, y, table[Index(ts, 0, 2)], 0, 2)
    modifies table
    ensures OddColumns(G, x, y, ts, table, ts)
    ensures forall r {:trigger Index(ts, 0, r)} :: 0 <= r < ts && r % 2 == 1 ==>
              Entry(G, x, y, table[Index(ts, 0, r)], 0, r)
  {
    hide IsAbelian, Combination, Column, Row;
    var i := 3 * ts;
    ghost var row := 3;
    while i < ts * ts
      invariant 3 <= row <= ts + 1 && row % 2 == 1
      invariant if row < ts then i == Index(ts, 0, row) else i >= ts * ts
      invariant OddColumns(G, x, y, ts, table, ts)
      invariant Entry(G, x, y, table[Index(ts, 0, 2)], 0, 2)
      invariant forall r {:trigger Index(ts, 0, r)} :: 0 <= r < row && r < ts && r % 2 == 1 ==>
                Entry(G, x, y, table[Index(ts, 0, r)], 0, r)
    {
      CombinationAdd(G, 0, row - 2, 0, 2, x, y);
      assert Entry(G, x, y, table[Index(ts, 0, row - 2)], 0, row - 2);
      table[i] := Filled(G.add(table[i - 2 * ts].value, table[2 * ts].value));
      i := i + 2 * ts;
      row := row + 2;
    }
  }

  /** The last pair of loops: the even columns of each odd row. */
  method FillOddRows<T(!new)>(G: Group<T>, x: T, y: T, ts: nat, table: array<Slot<T>>)
    requires IsAbelian(G) && G.elem(x) && G.elem(y) && (ts == 4 || ts == 8) && table.Length == ts * ts
    requires OddColumns(G, x, y, ts, table, ts)
    requires forall r {:trigger Index(ts, 0, r)} :: 0 <= r < ts && r % 2 == 1 ==>
              Entry(G, x, y, table[Index(ts, 0, r)], 0, r)
    requires x == Combination(G, 1, x, 0, y)
    modifies table
    ensures Complete(G, x, y, ts, table)
  {
    hide IsAbelian, Combination, Column, Row;
    var i := ts;
    ghost var row := 1;
    while i < ts * ts
      invariant 1 <= row <= ts + 1 && row % 2 == 1
      invariant if row < ts then i == Index(ts, 0, row) else i >= ts * ts
      invariant OddColumns(G, x, y, ts, table, ts)
      invariant forall r {:trigger Index(ts, 0, r)} :: 0 <= r < ts && r % 2 == 1 ==>
                Entry(G, x, y, table[Index(ts, 0, r)], 0, r)
      invariant forall c, r {:trigger Index(ts, c, r)} :: 0 <= c < ts && 0 <= r < row && r < ts && r % 2 == 1 ==>
                  Entry(G, x, y, table[Index(ts, c, r)], c, r)
    {
      FillRow(G, x, y, ts, table, i, row);
      i := i + 2 * ts;
      row := row + 2;
    }
  }

  method FillRow<T(!new)>(G: Group<T>, x: T, y: T, ts: nat, table: array<Slot<T>>, i: nat, ghost row: nat)
    requires IsAbelian(G) && G.elem(x) && G.elem(y) && (ts == 4 || ts == 8) && table.Length == ts * ts
    requires row < ts && i == Index(ts, 0, row) && Entry(G, x, y, table[Index(ts, 0, row)], 0, row)
    requires forall c {:trigger Index(ts, c, row)} :: 0 <= c < ts && c % 2 == 1 ==>
              Entry(G, x, y, table[Index(ts, c, row)], c, row)
    requires x == Combination(G, 1, x, 0, y)
    modifies table
    ensures forall c {:trigger Index(ts, c, row)} :: 0 <= c < ts ==> Entry(G, x, y, table[Index(ts, c, row)], c, row)
    ensures forall c, r {:trigger Index(ts, c, r)} :: 0 <= c < ts && 0 <= r < ts && r != row ==>
              table[Index(ts, c, r)] == old(table[Index(ts, c, r)])
  {
    hide IsAbelian, Combination, Column, Row;
    var j := i + 2;
    ghost var col := 2;
    while j < i + ts
      invariant 2 <= col <= ts && col % 2 == 0 && j == i + col
      invariant forall c {:trigger Index(ts, c, row)} :: 0 <= c < ts && (c % 2 == 1 || c < col) ==>
                Entry(G, x, y, table[Index(ts, c, row)], c, row)
      invariant forall c, r {:trigger Index(ts, c, r)} :: 0 <= c < ts && 0 <= r < ts && r != row ==>
                  table[Index(ts, c, r)] == old(table[Index(ts, c, r)])
    {
      CombinationAdd(G, col - 1, row, 1, 0, x, y);
      assert Entry(G, x, y, table[Index(ts, col - 1, row)], col - 1, row);
      assert j == Index(ts, col, row);
      table[j] := Filled(G.add(table[j - 1].value, x));
      j := j + 2;
      col := col + 2;
    }
  }

  /** a << n */
  ghost function Scaled(a: nat, n: nat): nat {
    a * Pow2(n)
  }

  lemma ScaledZero(a: nat)
    ensures Scaled(a, 0) == a && Scaled(0, a) == 0
  {}

  lemma ScaledDouble(a: nat, n: nat)
    ensures Scaled(a, n + 1) == Scaled(a, n) + Scaled(a, n)
    ensures Scaled(2 * a, n) == Scaled(a, n + 1)
  {
    Reassociate(a, 2, Pow2(n));
    assert (2 * a) * Pow2(n) == 2 * (a * Pow2(n));
  }

  lemma ScaledSum(a: nat, b: nat, n: nat, m: nat)
    ensures Scaled(Scaled(a, m) + b, n) == Scaled(a, m + n) + Scaled(b, n)
  {
    Pow2Add(m, n);
    SumTimes(a, Pow2(m), b, Pow2(n));
  }

  lemma SumTimes(a: int, b: int, c: int, d: int)
    ensures (a * b + c) * d == a * (b * d) + c * d
  {}

  lemma ScaledBound(a: nat, n: nat)
    ensures a >= 1 ==> Scaled(a, n) >= Pow2(n)
  {
    assert a >= 1 ==> a * Pow2(n) >= 1 * Pow2(n);
  }

  /** `power` is what has been read of `e` between bit `i` and the last window end at `end`. */
  ghost predicate Reading(e: nat, i: nat, end: nat, power: nat) {
    i <= end && Shift(e, i) == Scaled(Shift(e, end), end - i) + power && power < Pow2(end - i)
  }

  lemma ReadingStarts(e: nat, i: nat)
    ensures Reading(e, i, i, 0)
  {
    ScaledZero(Shift(e, i));
  }

  lemma ReadingBit(e: nat, i: nat, end: nat, power: nat)
    requires Reading(e, i + 1, end, power)
    ensures Reading(e, i, end, 2 * power + BitValue(e, i))
  {
    hide Scaled, Shift;
    ShiftStep(e, i);
    ScaledDouble(Shift(e, end), end - (i + 1));
  }

  lemma Pow2Order(i: nat, j: nat)
    ensures i <= j ==> Pow2(i) <= Pow2(j)
  {
    if i <= j { Pow2Monotone(i, j); }
  }

  /** A window of n bits holds fewer than n zeros below a set bit. */
  lemma ZerosInWindow(power: nat, zeros: nat, n: nat)
    requires Scaled(power, zeros) < Pow2(n)
    ensures power != 0 ==> zeros < n
  {
    Pow2Order(n, zeros);
    ScaledBound(power, zeros);
  }

  /** Doubling n times. */
  method Doublings<T(!new)>(G: Group<T>, g: T, n: nat, ghost a: nat, ghost x: T, ghost b: nat, ghost y: T)
    returns (r: T)
    requires IsAbelian(G) && G.elem(x) && G.elem(y) && g == Combination(G, a, x, b, y)
    ensures r == Combination(G, Scaled(a, n), x, Scaled(b, n), y)
  {
    ScaledZero(a);
    ScaledZero(b);
    hide IsAbelian, Combination, Scaled;
    r := g;
    var k := n;
    while k > 0
      invariant 0 <= k <= n
      invariant r == Combination(G, Scaled(a, n - k), x, Scaled(b, n - k), y)
    {
      CombinationAdd(G, Scaled(a, n - k), Scaled(b, n - k), Scaled(a, n - k), Scaled(b, n - k), x, y);
      ScaledDouble(a, n - k);
      ScaledDouble(b, n - k);
      r := G.add(r, r);
      k := k - 1;
    }
  }

  /** Between windows: the result covers everything above `end`, or there is nothing there yet. */
  ghost predicate Resting<T(!new)>(
    G: Group<T>, x: T, y: T, e1: nat, e2: nat, end: nat, firstTime: bool, prevPosition: int, soFar: T)
  {
    if firstTime then prevPosition == end - 1 && Shift(e1, end) == Shift(e2, end) == 0
    else prevPosition == end && soFar == Combination(G, Shift(e1, end), x, Shift(e2, end), y)
  }

  /** The end of a window at bit `i`: common trailing zeros are moved past the table lookup, and the
      result catches up with everything read so far. Before the first window there is no result. */
  method EndWindow<T(!new)>(
    G: Group<T>, x: T, y: T, w: nat, table: array<Slot<T>>, windowPower1: nat, windowPower2: nat,
    firstTime: bool, prevPosition: nat, i: nat, soFar: T, ghost e1: nat, ghost e2: nat, ghost end: nat)
    returns (result: T)
    requires IsAbelian(G) && G.elem(x) && G.elem(y) && 1 <= w <= 3 && Complete(G, x, y, Pow2(w), table)
    requires i < end && Reading(e1, i, end, windowPower1) && Reading(e2, i, end, windowPower2)
    requires windowPower1 < Pow2(w) && windowPower2 < Pow2(w)
    requires Resting(G, x, y, e1, e2, end, firstTime, prevPosition, soFar)
    requires firstTime ==> windowPower1 != 0 || windowPower2 != 0
    ensures Resting(G, x, y, e1, e2, i, false, i, result)
  {
    hide IsAbelian, Combination, Shift, Scaled, Complete, Pow2;
    var power1: nat, power2: nat := windowPower1, windowPower2;
    var squaresBefore: int, squaresAfter: nat := prevPosition - i, 0;
    ScaledZero(power1);
    ScaledZero(power2);
    while (power1 != 0 || power2 != 0) && power1 % 2 == 0 && power2 % 2 == 0
      invariant Scaled(power1, squaresAfter) == windowPower1 && Scaled(power2, squaresAfter) == windowPower2
      invariant power1 <= windowPower1 && power2 <= windowPower2
      invariant squaresBefore == prevPosition - i - squaresAfter
      invariant power1 == power2 == 0 ==> windowPower1 == windowPower2 == 0 && squaresAfter == 0
      decreases power1 + power2
    {
      ScaledDouble(power1 / 2, squaresAfter);
      ScaledDouble(power2 / 2, squaresAfter);
      power1, power2 := power1 / 2, power2 / 2;
      squaresBefore, squaresAfter := squaresBefore - 1, squaresAfter + 1;
    }
    ZerosInWindow(power1, squaresAfter, end - i);
    ZerosInWindow(power2, squaresAfter, end - i);
    ghost var before: nat := end - i - squaresAfter;
    ghost var a1, a2 := Scaled(Shift(e1, end), before), Scaled(Shift(e2, end), before);
    if firstTime {
      result := Lookup(G, x, y, w, table, power1, power2);
      ScaledZero(before);
    } else {
      result := Doublings(G, soFar, squaresBefore, Shift(e1, end), x, Shift(e2, end), y);
      if power1 != 0 || power2 != 0 {
        var entry := Lookup(G, x, y, w, table, power1, power2);
        CombinationAdd(G, a1, a2, power1, power2, x, y);
        result := G.add(result, entry);
      }
    }
    ScaledSum(Shift(e1, end), power1, squaresAfter, before);
    ScaledSum(Shift(e2, end), power2, squaresAfter, before);
    result := Doublings(G, result, squaresAfter, a1 + power1, x, a2 + power2, y);
  }

  method Lookup<T(!new)>(G: Group<T>, x: T, y: T, w: nat, table: array<Slot<T>>, power1: nat, power2: nat)
    returns (entry: T)
    requires 1 <= w <= 3 && Complete(G, x, y, Pow2(w), table)
    requires power1 < Pow2(w) && power2 < Pow2(w) && (power1 % 2 == 1 || power2 % 2 == 1)
    ensures entry == Combination(G, power1, x, power2, y)
  {
    IndexIsShifted(Pow2(w), power1, power2);
    hide Combination, Pow2;
    assert Entry(G, x, y, table[Index(Pow2(w), power1, power2)], power1, power2);
    entry := table[power2 * Pow2(w) + power1].value;
  }

  function LongerCount(e1: nat, e2: nat): nat {
    if BitCount(e1) > BitCount(e2) then BitCount(e1) else BitCount(e2)
  }

  /** The first window holds a set bit of the longer exponent. */
  lemma FirstWindow(e1: nat, e2: nat, i: nat, end: nat, power1: nat, power2: nat)
    requires i < end == LongerCount(e1, e2)
    requires Reading(e1, i, end, power1) && Reading(e2, i, end, power2)
    ensures power1 != 0 || power2 != 0
  {
    var e := if BitCount(e1) > BitCount(e2) then e1 else e2;
    BitCountTop(e);
    BitCountAbove(e, end);
    ScaledZero(end - i);
    ShiftShift(e, i, end - 1 - i);
    ShiftZero(end - 1 - i);
  }

  /** e1·x + e2·y, for all exponents. */
  method CascadeScalarMultiply<T(!new)>(G: Group<T>, x: T, e1: nat, y: T, e2: nat) returns (result: T)
    requires IsAbelian(G) && G.elem(x) && G.elem(y)
    ensures result == Combination(G, e1, x, e2, y)
  {
    var expLen := LongerCount(e1, e2);
    BitCountAbove(e1, expLen);
    BitCountAbove(e2, expLen);
    CombinationUnits(G, x, y);
    result := G.zero;
    if expLen == 0 {
      return;
    }
    var w := WindowFor(expLen);
    var table := BuildTable(G, x, y, w);
    result := Scan(G, x, e1, y, e2, expLen, w, table);
    assert Shift(e1, 0) == e1 && Shift(e2, 0) == e2;
  }

  /** The scan, from the highest bit down. */
  method Scan<T(!new)>(G: Group<T>, x: T, e1: nat, y: T, e2: nat, expLen: nat, w: nat, table: array<Slot<T>>)
    returns (result: T)
    requires IsAbelian(G) && G.elem(x) && G.elem(y) && 1 <= w <= 3 && Complete(G, x, y, Pow2(w), table)
    requires 0 < expLen == LongerCount(e1, e2) && Shift(e1, expLen) == Shift(e2, expLen) == 0
    ensures Resting(G, x, y, e1, e2, 0, false, 0, result)
  {
    TableSizes(w);
    var tableSize := Pow2(w);
    var power1: nat, power2: nat, prevPosition: nat, firstTime := 0, 0, expLen - 1, true;
    result := G.zero;
    ghost var end := expLen;
    ReadingStarts(e1, expLen);
    ReadingStarts(e2, expLen);
    assert Resting(G, x, y, e1, e2, end, firstTime, prevPosition, result);
    hide IsAbelian, Combination, Pow2, LongerCount, Complete, Reading, Shift, BitValue, Resting;
    var i: int := expLen - 1;
    while i >= 0
      invariant -1 <= i < end <= expLen
      invariant Complete(G, x, y, Pow2(w), table)
      invariant Reading(e1, i + 1, end, power1) && Reading(e2, i + 1, end, power2)
      invariant 2 * power1 < tableSize && 2 * power2 < tableSize
      invariant Resting(G, x, y, e1, e2, end, firstTime, prevPosition, result)
      invariant firstTime ==> end == expLen
      invariant i == -1 ==> !firstTime && end == 0
    {
      ReadingBit(e1, i, end, power1);
      ReadingBit(e2, i, end, power2);
      power1 := 2 * power1 + BitValue(e1, i);
      power2 := 2 * power2 + BitValue(e2, i);
      if i == 0 || 2 * power1 >= tableSize || 2 * power2 >= tableSize {
        if firstTime { FirstWindow(e1, e2, i, end, power1, power2); }
        result := EndWindow(G, x, y, w, table, power1, power2, firstTime, prevPosition, i, result, e1, e2, end);
        prevPosition, firstTime := i, false;
        power1, power2, end := 0, 0, i;
        ReadingStarts(e1, i);
        ReadingStarts(e2, i);
      }
      i := i - 1;
    }
  }
}
