/**
 * The carpet rasteriser: the rule deciding whether a grid cell is a hole at a
 * given order, and the in-place generator that fills a size-by-size grid.
 * Cells hold 1 (filled) or 0 (empty), as the source's integer array does.
 */
module Carpet {
  import opened Arith

  /** Base-3 digit number k of x (digit 0 is the least significant). */
  function Digit(x: nat, k: nat): (d: nat)
    ensures d < 3
  {
    (x / Pow3(k)) % 3
  }

  /** Digit k + 1 of x is digit k of x / 3. */
  lemma DigitShift(x: nat, k: nat)
    ensures Digit(x, k + 1) == Digit(x / 3, k)
  {
    DivThreeThenDiv(x, Pow3(k));
  }

  /**
   * The generator's per-cell loop as a recursive predicate: within `levels`
   * rounds of dividing both coordinates by 3, both are 1 mod 3 in the same round.
   */
  predicate InHole(x: nat, y: nat, levels: nat)
    ensures InHole(x, y, levels) ==> levels > 0
    ensures levels > 0 && x % 3 == 1 && y % 3 == 1 ==> InHole(x, y, levels)
  {
    levels > 0 && ((x % 3 == 1 && y % 3 == 1) || InHole(x / 3, y / 3, levels - 1))
  }

  /** Some level below `levels` has both base-3 digits equal to 1. */
  ghost predicate CentreDigitBelow(x: nat, y: nat, levels: nat)
  {
    exists k :: 0 <= k < levels && Digit(x, k) == 1 && Digit(y, k) == 1
  }

  /** The loop's hole test is the centre-removal rule on base-3 digits. */
  lemma {:induction false} InHoleIffCentreDigit(x: nat, y: nat, levels: nat)
    ensures InHole(x, y, levels) <==> CentreDigitBelow(x, y, levels)
  {
    if levels > 0 {
      InHoleIffCentreDigit(x / 3, y / 3, levels - 1);
      if InHole(x, y, levels) {
        if x % 3 == 1 && y % 3 == 1 {
          assert Digit(x, 0) == 1 && Digit(y, 0) == 1;
        } else {
          var k :| 0 <= k < levels - 1 && Digit(x / 3, k) == 1 && Digit(y / 3, k) == 1;
          DigitShift(x, k);
          DigitShift(y, k);
          assert Digit(x, k + 1) == 1 && Digit(y, k + 1) == 1;
        }
      }
      if CentreDigitBelow(x, y, levels) {
        var k :| 0 <= k < levels && Digit(x, k) == 1 && Digit(y, k) == 1;
        if k > 0 {
          DigitShift(x, k - 1);
          DigitShift(y, k - 1);
          assert Digit(x / 3, k - 1) == 1 && Digit(y / 3, k - 1) == 1;
        }
      }
    }
  }

  /** The value of cell (i, j) in the carpet of the given order. */
  function Cell(order: nat, i: nat, j: nat): (v: int)
    ensures v == 0 || v == 1
    ensures v == 0 <==> exists k :: 0 <= k < order && Digit(i, k) == 1 && Digit(j, k) == 1
  {
    InHoleIffCentreDigit(i, j, order);
    if InHole(i, j, order) then 0 else 1
  }

  /** Order 0 is the solid square. */
  lemma OrderZeroFilled(i: nat, j: nat)
    ensures Cell(0, i, j) == 1
  {
  }

  /** A hole found within n rounds is still found within more rounds. */
  lemma {:induction false} InHoleMonotone(x: nat, y: nat, n: nat, m: nat)
    requires n <= m
    requires InHole(x, y, n)
    ensures InHole(x, y, m)
  {
    if !(x % 3 == 1 && y % 3 == 1) {
      InHoleMonotone(x / 3, y / 3, n - 1, m - 1);
    }
  }

  /** Monotonic nesting: holes only accumulate as the order grows. */
  lemma NestedOrders(k: nat, m: nat, i: nat, j: nat)
    requires k <= m
    ensures Cell(m, i, j) <= Cell(k, i, j)
  {
    if InHole(i, j, k) {
      InHoleMonotone(i, j, k, m);
    }
  }

  /** A cell that differs between consecutive orders goes from filled to empty. */
  lemma ChangeIsRemoval(k: nat, i: nat, j: nat)
    ensures Cell(k, i, j) != Cell(k + 1, i, j) <==> Cell(k, i, j) == 1 && Cell(k + 1, i, j) == 0
  {
    NestedOrders(k, k + 1, i, j);
  }

  /** Coordinates below 3^n have no non-zero base-3 digit from level n on. */
  lemma {:induction false} NoHoleBeyondResolution(x: nat, y: nat, n: nat, levels: nat)
    requires x < Pow3(n) && y < Pow3(n)
    ensures InHole(x, y, levels) == InHole(x, y, if levels < n then levels else n)
  {
    if levels > 0 && n > 0 {
      NoHoleBeyondResolution(x / 3, y / 3, n - 1, levels - 1);
    } else if levels > 0 {
      assert x == 0 && y == 0;
      NoHoleBeyondResolution(0, 0, 0, levels - 1);
    }
  }

  /** On a grid of side 3^n, every order from n on draws the same carpet. */
  lemma OrdersBeyondResolutionAgree(n: nat, order: nat, i: nat, j: nat)
    requires n <= order
    requires i < Pow3(n) && j < Pow3(n)
    ensures Cell(order, i, j) == Cell(n, i, j)
  {
    NoHoleBeyondResolution(i, j, n, order);
    NoHoleBeyondResolution(i, j, n, n);
  }

  /** Order 1 empties exactly the cells whose coordinates are both 1 mod 3. */
  lemma OrderOnePattern(i: nat, j: nat)
    ensures Cell(1, i, j) == 0 <==> i % 3 == 1 && j % 3 == 1
  {
  }

  /** Size 3, order 1: only the centre cell (1, 1) is empty. */
  lemma SizeThreeOrderOne()
    ensures forall i: nat, j: nat :: i < 3 && j < 3 ==> (Cell(1, i, j) == 0 <==> i == 1 && j == 1)
  {
    forall i: nat, j: nat | i < 3 && j < 3
      ensures Cell(1, i, j) == 0 <==> i == 1 && j == 1
    {
      OrderOnePattern(i, j);
    }
  }

  /**
   * Size 9, order 1: the empty cells are the nine with both coordinates 1 mod 3;
   * the cell (3, 3) at the corner of the centre block stays filled.
   */
  lemma SizeNineOrderOne()
    ensures Cell(1, 3, 3) == 1 && Cell(1, 4, 4) == 0 && Cell(1, 1, 7) == 0
    ensures ZeroCount(1, 9) == 9
  {
    assert ZeroCountRows(1, 3, 9) == 3;
    assert ZeroCountRows(1, 4, 9) == 3;
    assert ZeroCountRows(1, 5, 9) == 6;
    assert ZeroCountRows(1, 6, 9) == 6;
    assert ZeroCountRows(1, 7, 9) == 6;
    assert ZeroCountRows(1, 8, 9) == 9;
  }

  /** Size 9, order 2: the centre block plus the eight sub-block centres, 17 in all. */
  lemma SizeNineOrderTwo()
    ensures forall i: nat, j: nat :: i < 9 && j < 9 ==>
      (Cell(2, i, j) == 0 <==> (3 <= i <= 5 && 3 <= j <= 5) || (i % 3 == 1 && j % 3 == 1))
    ensures ZeroCount(2, 9) == 17
  {
    forall i: nat, j: nat | i < 9 && j < 9
      ensures Cell(2, i, j) == 0 <==> (3 <= i <= 5 && 3 <= j <= 5) || (i % 3 == 1 && j % 3 == 1)
    {
      assert InHole(i, j, 2) <==> (i % 3 == 1 && j % 3 == 1) || ((i / 3) % 3 == 1 && (j / 3) % 3 == 1);
    }
    assert ZeroCountRows(2, 3, 9) == 3;
    assert ZeroCountRows(2, 4, 9) == 6;
    assert ZeroCountRows(2, 5, 9) == 11;
    assert ZeroCountRows(2, 6, 9) == 14;
    assert ZeroCountRows(2, 7, 9) == 14;
    assert ZeroCountRows(2, 8, 9) == 17;
  }

  /** Number of empty cells of a size-by-size carpet of the given order. */
  function ZeroCount(order: nat, size: nat): nat
  {
    ZeroCountRows(order, size, size)
  }

  function ZeroCountRows(order: nat, rows: nat, size: nat): nat
  {
    if rows == 0 then 0 else ZeroCountRows(order, rows - 1, size) + ZeroCountRow(order, rows - 1, size)
  }

  function ZeroCountRow(order: nat, i: nat, cols: nat): nat
  {
    if cols == 0 then 0 else ZeroCountRow(order, i, cols - 1) + (if InHole(i, cols - 1, order) then 1 else 0)
  }

  /** `c` is the size-by-size carpet of the given order. */
  ghost predicate IsCarpet(c: array2<int>, order: nat, size: nat)
    reads c
  {
    c.Length0 == size && c.Length1 == size &&
    forall i, j :: 0 <= i < size && 0 <= j < size ==> c[i, j] == Cell(order, i, j)
  }

  /** Cells before (i, j) in row-major order are final; the rest are still 1. */
  ghost predicate FilledBefore(c: array2<int>, order: nat, size: nat, i: nat, j: nat)
    reads c
  {
    c.Length0 == size && c.Length1 == size &&
    forall a, b :: 0 <= a < size && 0 <= b < size ==>
      c[a, b] == (if a < i || (a == i && b < j) then Cell(order, a, b) else 1)
  }

  /**
   * Builds the carpet as the source does: an all-ones grid, returned at once
   * for order 0; otherwise each cell is examined over `order` rounds of dividing
   * its coordinates by 3 and zeroed at the first round where both are 1 mod 3.
   */
  method CreateSierpinskiCarpet(order: nat, size: nat) returns (carpet: array2<int>)
    ensures IsCarpet(carpet, order, size)
  {
    carpet := new int[size, size]((i, j) => 1);
    if order == 0 {
      return;
    }
    for i := 0 to size
      invariant FilledBefore(carpet, order, size, i, 0)
    {
      for j := 0 to size
        invariant FilledBefore(carpet, order, size, i, j)
      {
        var x: nat, y: nat := i, j;
        for k := 0 to order
          invariant FilledBefore(carpet, order, size, i, j)
          invariant InHole(i, j, order) == InHole(x, y, order - k)
        {
          if x % 3 == 1 && y % 3 == 1 {
            carpet[i, j] := 0;
            break;
          }
          x, y := x / 3, y / 3;
        }
        assert carpet[i, j] == Cell(order, i, j);
      }
    }
  }
}
