/** Two-base multiplication over a shared power table, which needs a commutative group. */
module CascadeMultiplication {
  import opened Bits
  import opened Groups
  import opened SimultaneousMultiplication

  /** `a` times `x` plus `b` times `y`. */
  ghost function Pair<T(!new)>(g: Group<T>, x: T, y: T, a: int, b: int): T {
    g.add(Times(g, x, a), Times(g, y, b))
  }

  /** (a + b) + (c + d) == (a + c) + (b + d) */
  lemma Interchange<T(!new)>(g: Group<T>, a: T, b: T, c: T, d: T)
    requires IsCommutativeGroup(g)
    ensures g.add(g.add(a, b), g.add(c, d)) == g.add(g.add(a, c), g.add(b, d))
  {
    assert AssociativeAt(g, a, b, g.add(c, d)) && AssociativeAt(g, b, c, d);
    assert CommutativeAt(g, b, c);
    assert AssociativeAt(g, c, b, d) && AssociativeAt(g, a, c, g.add(b, d));
  }

  lemma PairSum<T(!new)>(g: Group<T>, x: T, y: T, a: int, b: int, c: int, d: int)
    requires IsCommutativeGroup(g)
    ensures g.add(Pair(g, x, y, a, b), Pair(g, x, y, c, d)) == Pair(g, x, y, a + c, b + d)
  {
    Interchange(g, Times(g, x, a), Times(g, y, b), Times(g, x, c), Times(g, y, d));
    TimesSum(g, x, a, c);
    TimesSum(g, y, b, d);
  }

  lemma PairUnits<T(!new)>(g: Group<T>, x: T, y: T)
    requires IsCommutativeGroup(g)
    ensures Pair(g, x, y, 1, 0) == x && Pair(g, x, y, 0, 1) == y && Pair(g, x, y, 0, 0) == g.identity
  {
    TimesOne(g, x);
    TimesOne(g, y);
    assert IdentityAt(g, x) && IdentityAt(g, y) && IdentityAt(g, g.identity);
  }

  /** Multiplication by a scalar distributes over the group's addition. */
  lemma {:induction false} TimesDistributes<T(!new)>(g: Group<T>, x: T, y: T, n: nat)
    requires IsCommutativeGroup(g)
    ensures Times(g, g.add(x, y), n) == Pair(g, x, y, n, n)
  {
    if n == 0 {
      PairUnits(g, x, y);
    } else {
      TimesDistributes(g, x, y, n - 1);
      Interchange(g, Times(g, x, n - 1), Times(g, y, n - 1), x, y);
    }
  }

  lemma {:induction false} TimesTimes<T(!new)>(g: Group<T>, x: T, m: nat, n: nat)
    requires IsGroup(g)
    ensures Times(g, Times(g, x, m), n) == Times(g, x, n * m)
  {
    if n == 0 {
      assert n * m == 0;
    } else {
      TimesTimes(g, x, m, n - 1);
      TimesSum(g, x, (n - 1) * m, m);
      assert (n - 1) * m + m == n * m;
    }
  }

  /** The place of `(p1, p2)` in a table with rows of `size` entries. */
  function Slot(size: nat, p1: nat, p2: nat): nat {
    if p2 == 0 then p1 else Slot(size, p1, p2 - 1) + size
  }

  lemma {:induction false} SlotIsSum(size: nat, p1: nat, p2: nat)
    ensures Slot(size, p1, p2) == p2 * size + p1
  {
    if p2 > 0 {
      SlotIsSum(size, p1, p2 - 1);
      assert p2 * size == (p2 - 1) * size + size;
    }
  }

  lemma SlotStep(size: nat, p1: nat, p2: nat)
    ensures Slot(size, p1, p2 + 1) == Slot(size, p1, p2) + size
  {
  }

  lemma {:induction false} SlotOffset(size: nat, p1: nat, p2: nat)
    ensures Slot(size, p1, p2) == Slot(size, 0, p2) + p1
  {
    if p2 > 0 {
      SlotOffset(size, p1, p2 - 1);
    }
  }

  lemma {:induction false} SlotInjective(size: nat, p1: nat, p2: nat, q1: nat, q2: nat)
    requires p1 < size && q1 < size
    requires Slot(size, p1, p2) == Slot(size, q1, q2)
    ensures p1 == q1 && p2 == q2
  {
    if p2 > 0 && q2 > 0 {
      SlotInjective(size, p1, p2 - 1, q1, q2 - 1);
    } else {
      SlotIsSum(size, p1, p2);
      SlotIsSum(size, q1, q2);
      MultipleOutgrows(p2, size);
      MultipleOutgrows(q2, size);
    }
  }

  /** Every lookup with both digits below the row length stays inside the table. */
  lemma SlotInside(size: nat, p1: nat, p2: nat)
    requires p1 < size
    ensures p2 < size <==> Slot(size, p1, p2) < Slot(size, 0, size)
  {
    SlotIsSum(size, p1, p2);
    SlotIsSum(size, 0, size);
    if p2 < size {
      MulMonotone(p2 + 1, size, size);
      assert (p2 + 1) * size == p2 * size + size;
    } else {
      MulMonotone(size, p2, size);
    }
  }

  ghost predicate EntryAt<T(!new)>(g: Group<T>, x: T, y: T, size: nat, table: seq<T>, done: set<(nat, nat)>,
                                   p1: nat, p2: nat) {
    (p1, p2) in done ==>
      p1 < size && p2 < size && Slot(size, p1, p2) < |table| && table[Slot(size, p1, p2)] == Pair(g, x, y, p1, p2)
  }

  /** The entries named in `done` hold the combinations they stand for. */
  ghost predicate Holds<T(!new)>(g: Group<T>, x: T, y: T, size: nat, table: seq<T>, done: set<(nat, nat)>) {
    |table| == Slot(size, 0, size) && forall p1: nat, p2: nat :: EntryAt(g, x, y, size, table, done, p1, p2)
  }

  lemma WriteEntry<T(!new)>(g: Group<T>, x: T, y: T, size: nat, table: seq<T>, done: set<(nat, nat)>, p1: nat, p2: nat)
    requires Holds(g, x, y, size, table, done) && p1 < size && p2 < size
    ensures Slot(size, p1, p2) < |table|
    ensures Holds(g, x, y, size, table[Slot(size, p1, p2) := Pair(g, x, y, p1, p2)], done + {(p1, p2)})
  {
    SlotInside(size, p1, p2);
    var table' := table[Slot(size, p1, p2) := Pair(g, x, y, p1, p2)];
    forall q1: nat, q2: nat ensures EntryAt(g, x, y, size, table', done + {(p1, p2)}, q1, q2) {
      assert EntryAt(g, x, y, size, table, done, q1, q2);
      if (q1, q2) in done && Slot(size, q1, q2) == Slot(size, p1, p2) {
        SlotInjective(size, q1, q2, p1, p2);
      }
    }
  }

  /** A lookup with both digits in range and one of them odd finds the combination. */
  ghost predicate LookupAt<T(!new)>(g: Group<T>, x: T, y: T, size: nat, table: seq<T>, p1: nat, p2: nat) {
    p1 < size && p2 < size && (p1 % 2 == 1 || p2 % 2 == 1) ==>
      Slot(size, p1, p2) < |table| && table[Slot(size, p1, p2)] == Pair(g, x, y, p1, p2)
  }

  ghost predicate TableReady<T(!new)>(g: Group<T>, x: T, y: T, size: nat, table: seq<T>) {
    forall p1: nat, p2: nat :: LookupAt(g, x, y, size, table, p1, p2)
  }

  /** Fills an entry from two filled ones. */
  method SetSum<T(!new)>(g: Group<T>, ghost x: T, ghost y: T, size: nat, tableIn: seq<T>, ghost doneIn: set<(nat, nat)>,
                         to: nat, from: nat, element: T,
                         ghost p1: nat, ghost p2: nat, ghost q1: nat, ghost q2: nat)
    returns (table: seq<T>, ghost done: set<(nat, nat)>)
    requires IsCommutativeGroup(g) && Holds(g, x, y, size, tableIn, doneIn)
    requires (p1, p2) in doneIn && p1 + q1 < size && p2 + q2 < size
    requires from == Slot(size, p1, p2) && to == Slot(size, p1 + q1, p2 + q2)
    requires element == Pair(g, x, y, q1, q2)
    ensures Holds(g, x, y, size, table, done) && done == doneIn + {(p1 + q1, p2 + q2)}
  {
    assert EntryAt(g, x, y, size, tableIn, doneIn, p1, p2);
    WriteEntry(g, x, y, size, tableIn, doneIn, p1 + q1, p2 + q2);
    PairSum(g, x, y, p1, p2, q1, q2);
    table := tableIn[to := g.add(tableIn[from], element)];
    done := doneIn + {(p1 + q1, p2 + q2)};
  }

  /** The table of small combinations, as far as lookups need it. Entries never written keep
      `blank`, whatever the default element is. */
  method BuildTable<T(!new)>(g: Group<T>, x: T, y: T, w: nat, blank: T) returns (powerTable: seq<T>)
    requires IsCommutativeGroup(g) && w > 0
    ensures TableReady(g, x, y, Pow2(w), powerTable)
  {
    var tableSize := Pow2(w);
    assert tableSize == 2 * Pow2(w - 1);
    powerTable := seq(tableSize * Pow2(w), _ => blank);
    SlotIsSum(tableSize, 0, tableSize);
    ghost var done: set<(nat, nat)> := {};
    PairUnits(g, x, y);
    SlotOfUnits(tableSize);
    WriteEntry(g, x, y, tableSize, powerTable, done, 1, 0);
    powerTable, done := powerTable[1 := x], done + {(1, 0)};
    WriteEntry(g, x, y, tableSize, powerTable, done, 0, 1);
    powerTable, done := powerTable[tableSize := y], done + {(0, 1)};
    if w == 1 {
      powerTable, done := SetSum(g, x, y, tableSize, powerTable, done, 3, 1, y, 1, 0, 0, 1);
    } else {
      assert tableSize == 4 * Pow2(w - 2);
      powerTable, done := SetSum(g, x, y, tableSize, powerTable, done, 2, 1, x, 1, 0, 1, 0);
      powerTable, done := SetSum(g, x, y, tableSize, powerTable, done, 2 * tableSize, tableSize, y, 0, 1, 0, 1);
      powerTable, done := FillFirstRow(g, x, y, tableSize, powerTable, done);
      powerTable, done := FillOddColumns(g, x, y, tableSize, powerTable, done);
      powerTable, done := FillFirstColumn(g, x, y, tableSize, powerTable, done);
      powerTable, done := FillOddRows(g, x, y, tableSize, powerTable, done);
    }
    forall p1: nat, p2: nat ensures LookupAt(g, x, y, tableSize, powerTable, p1, p2) {
      assert EntryAt(g, x, y, tableSize, powerTable, done, p1, p2);
    }
  }

  lemma SlotOfUnits(size: nat)
    ensures Slot(size, 0, 1) == size && Slot(size, 1, 1) == size + 1 && Slot(size, 0, 2) == 2 * size
  {
    assert Slot(size, 0, 1) == Slot(size, 0, 0) + size;
    assert Slot(size, 0, 2) == Slot(size, 0, 1) + size;
    assert Slot(size, 1, 1) == Slot(size, 1, 0) + size;
  }

  method FillFirstRow<T(!new)>(g: Group<T>, ghost x: T, ghost y: T, size: nat, tableIn: seq<T>,
                               ghost doneIn: set<(nat, nat)>)
    returns (table: seq<T>, ghost done: set<(nat, nat)>)
    requires IsCommutativeGroup(g) && Holds(g, x, y, size, tableIn, doneIn)
    requires (1, 0) in doneIn && (2, 0) in doneIn
    ensures Holds(g, x, y, size, table, done) && doneIn <= done
    ensures forall p :: 0 <= p < size && p % 2 == 1 ==> (p, 0) in done
  {
    table, done := tableIn, doneIn;
    var i := 3;
    while i < size
      invariant i % 2 == 1 && i >= 3
      invariant Holds(g, x, y, size, table, done) && doneIn <= done
      invariant forall p :: 0 <= p < size && p < i && p % 2 == 1 ==> (p, 0) in done
    {
      assert EntryAt(g, x, y, size, table, done, 2, 0);
      table, done := SetSum(g, x, y, size, table, done, i, i - 2, table[2], i - 2, 0, 2, 0);
      i := i + 2;
    }
  }

  /** Fills column `i` upwards from its entry in row 0. */
  method FillColumn<T(!new)>(g: Group<T>, ghost x: T, y: T, size: nat, tableIn: seq<T>, ghost doneIn: set<(nat, nat)>,
                             i: nat)
    returns (table: seq<T>, ghost done: set<(nat, nat)>)
    requires IsCommutativeGroup(g) && Holds(g, x, y, size, tableIn, doneIn)
    requires i < size && (i, 0) in doneIn
    ensures Holds(g, x, y, size, table, done) && doneIn <= done
    ensures forall q :: 0 <= q < size ==> (i, q) in done
  {
    table, done := tableIn, doneIn;
    PairUnits(g, x, y);
    var j := i + size;
    ghost var row := 1;
    SlotStep(size, i, 0);
    SlotInside(size, i, 1);
    while j < |table|
      invariant 1 <= row && j == Slot(size, i, row) && (j < |table| <==> row < size)
      invariant Holds(g, x, y, size, table, done) && doneIn <= done
      invariant forall q :: 0 <= q < row && q < size ==> (i, q) in done
      decreases size - row
    {
      SlotStep(size, i, row - 1);
      table, done := SetSum(g, x, y, size, table, done, j, j - size, y, i, row - 1, 0, 1);
      SlotStep(size, i, row);
      j, row := j + size, row + 1;
      SlotInside(size, i, row);
    }
  }

  method FillOddColumns<T(!new)>(g: Group<T>, ghost x: T, y: T, size: nat, tableIn: seq<T>,
                                 ghost doneIn: set<(nat, nat)>)
    returns (table: seq<T>, ghost done: set<(nat, nat)>)
    requires IsCommutativeGroup(g) && Holds(g, x, y, size, tableIn, doneIn)
    requires forall p :: 0 <= p < size && p % 2 == 1 ==> (p, 0) in doneIn
    ensures Holds(g, x, y, size, table, done) && doneIn <= done
    ensures forall p, q :: 0 <= p < size && p % 2 == 1 && 0 <= q < size ==> (p, q) in done
  {
    table, done := tableIn, doneIn;
    var i := 1;
    while i < size
      invariant i % 2 == 1
      invariant Holds(g, x, y, size, table, done) && doneIn <= done
      invariant forall p, q :: 0 <= p < size && p < i && p % 2 == 1 && 0 <= q < size ==> (p, q) in done
    {
      table, done := FillColumn(g, x, y, size, table, done, i);
      i := i + 2;
    }
  }

  method FillFirstColumn<T(!new)>(g: Group<T>, ghost x: T, ghost y: T, size: nat, tableIn: seq<T>,
                                  ghost doneIn: set<(nat, nat)>)
    returns (table: seq<T>, ghost done: set<(nat, nat)>)
    requires IsCommutativeGroup(g) && Holds(g, x, y, size, tableIn, doneIn) && size > 2
    requires (0, 1) in doneIn && (0, 2) in doneIn
    ensures Holds(g, x, y, size, table, done) && doneIn <= done
    ensures forall q :: 0 <= q < size && q % 2 == 1 ==> (0, q) in done
  {
    table, done := tableIn, doneIn;
    SlotOfUnits(size);
    var i := 3 * size;
    ghost var row := 3;
    SlotStep(size, 0, 2);
    SlotInside(size, 0, 3);
    while i < |table|
      invariant row >= 3 && row % 2 == 1 && i == Slot(size, 0, row) && (i < |table| <==> row < size)
      invariant Holds(g, x, y, size, table, done) && doneIn <= done
      invariant forall q :: 0 <= q < size && q < row && q % 2 == 1 ==> (0, q) in done
      decreases size - row
    {
      SlotStep(size, 0, row - 2);
      SlotStep(size, 0, row - 1);
      assert EntryAt(g, x, y, size, table, done, 0, 2);
      table, done := SetSum(g, x, y, size, table, done, i, i - 2 * size, table[2 * size], 0, row - 2, 0, 2);
      SlotStep(size, 0, row);
      SlotStep(size, 0, row + 1);
      i, row := i + 2 * size, row + 2;
      SlotInside(size, 0, row);
    }
  }

  /** Fills the even columns of a row from the odd ones beside them. */
  method FillRow<T(!new)>(g: Group<T>, x: T, ghost y: T, size: nat, tableIn: seq<T>, ghost doneIn: set<(nat, nat)>,
                          i: nat, ghost row: nat)
    returns (table: seq<T>, ghost done: set<(nat, nat)>)
    requires IsCommutativeGroup(g) && Holds(g, x, y, size, tableIn, doneIn)
    requires row < size && i == Slot(size, 0, row) && (0, row) in doneIn
    requires forall p :: 0 <= p < size && p % 2 == 1 ==> (p, row) in doneIn
    ensures Holds(g, x, y, size, table, done) && doneIn <= done
    ensures forall p :: 0 <= p < size ==> (p, row) in done
  {
    table, done := tableIn, doneIn;
    PairUnits(g, x, y);
    var j := i + 2;
    while j < i + size
      invariant j >= i + 2 && (j - i) % 2 == 0
      invariant Holds(g, x, y, size, table, done) && doneIn <= done
      invariant forall p :: 0 <= p < size && p < j - i ==> (p, row) in done
      decreases i + size - j
    {
      SlotOffset(size, j - i, row);
      SlotOffset(size, j - i - 1, row);
      table, done := SetSum(g, x, y, size, table, done, j, j - 1, x, j - i - 1, row, 1, 0);
      j := j + 2;
    }
  }

  method FillOddRows<T(!new)>(g: Group<T>, x: T, ghost y: T, size: nat, tableIn: seq<T>, ghost doneIn: set<(nat, nat)>)
    returns (table: seq<T>, ghost done: set<(nat, nat)>)
    requires IsCommutativeGroup(g) && Holds(g, x, y, size, tableIn, doneIn) && size > 2
    requires forall p, q :: 0 <= p < size && p % 2 == 1 && 0 <= q < size ==> (p, q) in doneIn
    requires forall q :: 0 <= q < size && q % 2 == 1 ==> (0, q) in doneIn
    ensures Holds(g, x, y, size, table, done) && doneIn <= done
    ensures forall p, q :: 0 <= p < size && 0 <= q < size && q % 2 == 1 ==> (p, q) in done
  {
    table, done := tableIn, doneIn;
    var i := size;
    ghost var row := 1;
    SlotStep(size, 0, 0);
    SlotInside(size, 0, 1);
    while i < |table|
      invariant row % 2 == 1 && i == Slot(size, 0, row) && (i < |table| <==> row < size)
      invariant Holds(g, x, y, size, table, done) && doneIn <= done
      invariant forall p, q :: 0 <= p < size && 0 <= q < size && q < row && q % 2 == 1 ==> (p, q) in done
      decreases size - row
    {
      table, done := FillRow(g, x, y, size, table, done, i, row);
      SlotStep(size, 0, row);
      SlotStep(size, 0, row + 1);
      i, row := i + 2 * size, row + 2;
      SlotInside(size, 0, row);
    }
  }

  /** `count` doublings multiply both coefficients by `2^count`. */
  method DoubleRepeatedly<T(!new)>(g: Group<T>, ghost x: T, ghost y: T, element: T, count: nat, ghost a: int,
                                   ghost b: int)
    returns (result: T)
    requires IsCommutativeGroup(g) && element == Pair(g, x, y, a, b)
    ensures result == Pair(g, x, y, Shl(a, count), Shl(b, count))
  {
    result := element;
    var left := count;
    while left > 0
      invariant 0 <= left <= count
      invariant result == Pair(g, x, y, Shl(a, count - left), Shl(b, count - left))
    {
      PairSum(g, x, y, Shl(a, count - left), Shl(b, count - left), Shl(a, count - left), Shl(b, count - left));
      result := g.Double(result);
      left := left - 1;
    }
  }

  /** Moves common factors of two from the digits into doublings after the addition. The
      digits read since the last addition are less than `2^room`, so the doublings left
      before the addition never run below zero. */
  method StripTwos(power1In: nat, power2In: nat, before: nat, ghost room: nat)
    returns (power1: nat, power2: nat, squaresBefore: nat, squaresAfter: nat)
    requires before <= room <= before + 1
    requires power1In < Pow2(room) && power2In < Pow2(room)
    ensures squaresBefore + squaresAfter == before
    ensures power1In == Shl(power1, squaresAfter) && power2In == Shl(power2, squaresAfter)
    ensures power1 <= power1In && power2 <= power2In
    ensures power1 == power2 == 0 || power1 % 2 == 1 || power2 % 2 == 1
  {
    power1, power2, squaresBefore, squaresAfter := power1In, power2In, before, 0;
    while (power1 != 0 || power2 != 0) && power1 % 2 == 0 && power2 % 2 == 0
      invariant squaresBefore + squaresAfter == before
      invariant power1In == Shl(power1, squaresAfter) && power2In == Shl(power2, squaresAfter)
      invariant power1 < Pow2(squaresBefore + (room - before)) && power2 < Pow2(squaresBefore + (room - before))
      invariant power1 <= power1In && power2 <= power2In
      decreases power1 + power2
    {
      ShlInner(power1 / 2, squaresAfter);
      ShlInner(power2 / 2, squaresAfter);
      power1, power2 := power1 / 2, power2 / 2;
      squaresBefore, squaresAfter := squaresBefore - 1, squaresAfter + 1;
    }
  }

  /** Adds the digits collected since the last addition, `before` positions below it. */
  method AddDigits<T(!new)>(g: Group<T>, ghost x: T, ghost y: T, w: nat, powerTable: seq<T>, resultIn: T,
                            firstTime: bool, power1In: nat, power2In: nat, before: nat, ghost a: nat, ghost b: nat)
    returns (result: T)
    requires IsCommutativeGroup(g) && TableReady(g, x, y, Pow2(w), powerTable)
    requires power1In < Pow2(w) && power2In < Pow2(w)
    requires var room := if firstTime then before + 1 else before; power1In < Pow2(room) && power2In < Pow2(room)
    requires if firstTime then a == b == 0 && (power1In != 0 || power2In != 0) else resultIn == Pair(g, x, y, a, b)
    ensures result == Pair(g, x, y, Shl(a, before) + power1In, Shl(b, before) + power2In)
  {
    var power1, power2, squaresBefore, squaresAfter :=
      StripTwos(power1In, power2In, before, if firstTime then before + 1 else before);
    assert LookupAt(g, x, y, Pow2(w), powerTable, power1, power2);
    SlotIsSum(Pow2(w), power1, power2);
    ghost var a', b' := Shl(a, squaresBefore), Shl(b, squaresBefore);
    ShlGrows(0, squaresAfter);
    if firstTime {
      result := powerTable[power2 * Pow2(w) + power1];
      ShlGrows(0, squaresBefore);
    } else {
      result := DoubleRepeatedly(g, x, y, resultIn, squaresBefore, a, b);
      if power1 != 0 || power2 != 0 {
        PairSum(g, x, y, a', b', power1, power2);
        result := g.add(result, powerTable[power2 * Pow2(w) + power1]);
      }
    }
    result := DoubleRepeatedly(g, x, y, result, squaresAfter, a' + power1, b' + power2);
    ShlSum(a', power1, squaresAfter);
    ShlSum(b', power2, squaresAfter);
    ShlShl(a, squaresBefore, squaresAfter);
    ShlShl(b, squaresBefore, squaresAfter);
  }

  /** `power` is made of the bits of `e` below `prev` and from `next` up. */
  ghost predicate Digits(e: nat, prev: nat, next: nat, power: nat)
    decreases prev - next
  {
    if prev <= next then prev == next && power == 0
    else power % 2 == GetBit(e, next) && Digits(e, prev, next + 1, power / 2)
  }

  lemma NextDigit(e: nat, prev: nat, i: nat, power: nat)
    requires i < prev && Digits(e, prev, i + 1, power)
    ensures Digits(e, prev, i, 2 * power + GetBit(e, i))
  {
    var next := 2 * power + GetBit(e, i);
    assert next / 2 == power && next % 2 == GetBit(e, i);
  }

  lemma {:induction false} DigitsValue(e: nat, prev: nat, next: nat, power: nat)
    requires Digits(e, prev, next, power)
    ensures next <= prev && Shr(e, next) == Shl(Shr(e, prev), prev - next) + power && power < Pow2(prev - next)
    decreases prev - next
  {
    if next < prev {
      DigitsValue(e, prev, next + 1, power / 2);
      ShrStep(e, next);
    }
  }

  /** Brings the result from position `prev` down to `i`; before the first addition there is
      nothing above the digits, so the doublings are skipped. */
  method FlushDigits<T(!new)>(g: Group<T>, ghost x: T, ghost y: T, w: nat, powerTable: seq<T>, resultIn: T,
                              firstTime: bool, power1: nat, power2: nat, prev: nat, i: nat,
                              ghost e1: nat, ghost e2: nat, ghost top: nat)
    returns (result: T)
    requires IsCommutativeGroup(g) && TableReady(g, x, y, Pow2(w), powerTable)
    requires power1 < Pow2(w) && power2 < Pow2(w) && i <= prev
    requires top == if firstTime then prev + 1 else prev
    requires Digits(e1, top, i, power1) && Digits(e2, top, i, power2)
    requires firstTime ==> Shr(e1, top) == Shr(e2, top) == 0 && (power1 != 0 || power2 != 0)
    requires !firstTime ==> resultIn == Pair(g, x, y, Shr(e1, prev), Shr(e2, prev))
    ensures result == Pair(g, x, y, Shr(e1, i), Shr(e2, i))
  {
    DigitsValue(e1, top, i, power1);
    DigitsValue(e2, top, i, power2);
    if firstTime {
      ShlGrows(0, prev - i);
      ShlGrows(0, prev + 1 - i);
      result := AddDigits(g, x, y, w, powerTable, resultIn, true, power1, power2, prev - i, 0, 0);
    } else {
      result := AddDigits(g, x, y, w, powerTable, resultIn, false, power1, power2, prev - i, Shr(e1, prev),
                          Shr(e2, prev));
    }
  }

  /** The top bit of the longer exponent shows in the first digits read. */
  lemma FirstDigit(e1: nat, e2: nat, expLen: nat)
    requires expLen == Max(BitCount(e1), BitCount(e2)) && expLen > 0
    ensures Shr(e1, expLen) == Shr(e2, expLen) == 0
    ensures GetBit(e1, expLen - 1) == 1 || GetBit(e2, expLen - 1) == 1
  {
    HighBitsClear(e1, expLen);
    HighBitsClear(e2, expLen);
    BitCountBounds(e1);
    BitCountBounds(e2);
  }

  function Max(a: nat, b: nat): nat {
    if a > b then a else b
  }

  /** Reads both exponents from the top bit down, adding a table entry whenever the digits
      collected cannot take another bit. */
  method ScanDigits<T(!new)>(g: Group<T>, ghost x: T, e1: nat, ghost y: T, e2: nat, w: nat, powerTable: seq<T>,
                             expLen: nat, blank: T)
    returns (result: T)
    requires IsCommutativeGroup(g) && TableReady(g, x, y, Pow2(w), powerTable)
    requires w > 0 && expLen == Max(BitCount(e1), BitCount(e2)) && expLen > 0
    ensures result == Pair(g, x, y, e1, e2)
  {
    var tableSize := Pow2(w);
    assert tableSize == 2 * Pow2(w - 1);
    result := blank;
    FirstDigit(e1, e2, expLen);
    var power1: nat, power2: nat, prevPosition: nat := 0, 0, expLen - 1;
    var firstTime := true;
    ghost var top := expLen;
    var i: nat := expLen;
    while i > 0
      invariant i <= top && top == if firstTime then prevPosition + 1 else prevPosition
      invariant 2 * power1 < tableSize && 2 * power2 < tableSize
      invariant Digits(e1, top, i, power1) && Digits(e2, top, i, power2)
      invariant firstTime ==> top == expLen && (i < expLen ==> power1 != 0 || power2 != 0)
      invariant !firstTime ==> result == Pair(g, x, y, Shr(e1, prevPosition), Shr(e2, prevPosition))
      invariant i == 0 ==> !firstTime && prevPosition == 0
    {
      i := i - 1;
      NextDigit(e1, top, i, power1);
      NextDigit(e2, top, i, power2);
      power1 := 2 * power1 + GetBit(e1, i);
      power2 := 2 * power2 + GetBit(e2, i);
      if i == 0 || 2 * power1 >= tableSize || 2 * power2 >= tableSize {
        result := FlushDigits(g, x, y, w, powerTable, result, firstTime, power1, power2, prevPosition, i, e1, e2, top);
        firstTime, prevPosition, top := false, i, i;
        power1, power2 := 0, 0;
      }
    }
  }

  /** `e1` times `x` plus `e2` times `y`. */
  method CascadeScalarMultiply<T(!new)>(g: Group<T>, x: T, e1: nat, y: T, e2: nat, blank: T) returns (result: T)
    requires IsCommutativeGroup(g)
    ensures result == Pair(g, x, y, e1, e2)
  {
    var expLen := Max(BitCount(e1), BitCount(e2));
    PairUnits(g, x, y);
    if expLen == 0 {
      return g.identity;
    }
    var w := if expLen <= 46 then 1 else if expLen <= 260 then 2 else 3;
    var powerTable := BuildTable(g, x, y, w, blank);
    result := ScanDigits(g, x, e1, y, e2, w, powerTable, expLen, blank);
  }
}
