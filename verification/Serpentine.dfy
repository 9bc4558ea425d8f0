/**
 Where the loop drawings put their boxes and rails: the box placement of
 `layoutAsciiGraph` (ascii-layout.ts) and the rows and feedback rails of
 `layoutSerialCompact` (serial-compact-layout.ts).
 */
module Serpentine {
  import opened Arithmetic

  datatype Position = Position(x: int, y: int)

  function Min(a: int, b: int): (least: int)
    ensures least <= a && least <= b && (least == a || least == b)
  {
    if a < b then a else b
  }

  function Max(a: int, b: int): (greatest: int)
    ensures a <= greatest && b <= greatest && (greatest == a || greatest == b)
  {
    if a < b then b else a
  }

  // ----- boxes of the ASCII layout

  const BOX_HEIGHT := 3

  datatype Geometry = Geometry(columns: int, width: int, perRow: int, gap: int)

  /** The sizes chosen for `count` boxes, a success path of `pathLength` nodes and labels `desired` wide. */
  function GeometryOf(count: nat, pathLength: nat, desired: nat, available: int): (g: Geometry)
    requires count > 0
    ensures 16 <= g.width <= 24 && 1 <= g.perRow <= 3 && g.perRow <= count && g.columns >= 36
    ensures g.perRow > 1 ==> g.gap >= 4
    ensures 2 + (g.perRow - 1) * (g.width + g.gap) + g.width <= g.columns
  {
    var columns := Max(36, available);
    var width := Max(16, Min(24, Min(columns - 8, desired)));
    var usable := Max(width, columns - 8);
    var perRow := if pathLength >= 6 then 1 else Max(1, Min(3, Min((usable + 4) / (width + 4), count)));
    RowFits(usable, width, perRow);
    var gap := if perRow > 1 then (usable - perRow * width) / (perRow - 1) else 0;
    Geometry(columns, width, perRow, gap)
  }

  /**
   The sizes: as wide as the labels ask for between 16 and 24, one box a row for
   long paths, otherwise as many of up to three as fit with gaps of four, and
   the gap as wide as the row allows.
   */
  lemma GeometryIsExact(count: nat, pathLength: nat, desired: nat, available: int)
    requires count > 0
    ensures var g := GeometryOf(count, pathLength, desired, available);
            var room := g.columns - 8;
            && g.columns == (if available < 36 then 36 else available)
            && g.width == (if desired < 16 then 16 else if desired < 24 then desired else 24)
            && (pathLength >= 6 ==> g.perRow == 1)
            && (pathLength < 6 && g.perRow < 3 && g.perRow < count ==> (g.perRow + 1) * (g.width + 4) > room + 4)
            && (g.perRow > 1 ==>
                  (g.perRow - 1) * g.gap <= room - g.perRow * g.width < (g.perRow - 1) * (g.gap + 1))
  {
    var g := GeometryOf(count, pathLength, desired, available);
    var room := g.columns - 8;
    OneMoreDoesNotFit(room + 4, g.width + 4);
    if g.perRow > 1 {
      Divided(room - g.perRow * g.width, g.perRow - 1);
    }
  }

  lemma OneMoreDoesNotFit(total: int, step: int)
    requires step > 0 && total >= 0
    ensures total < (total / step + 1) * step
    ensures forall n :: n > total / step ==> n * step > total
  {
    var q := total / step;
    assert total == q * step + total % step;
    assert (q + 1) * step == q * step + step;
    forall n | n > q ensures n * step > total {
      Scaled(q + 1, n, step);
    }
  }

  lemma Divided(x: int, d: int)
    requires d > 0
    ensures d * (x / d) <= x < d * (x / d + 1)
  {
    assert x == d * (x / d) + x % d;
    assert d * (x / d + 1) == d * (x / d) + d;
  }

  /** As many boxes as are put into a row leave gaps of at least four. */
  lemma RowFits(usable: int, width: int, perRow: int)
    requires 16 <= width <= 24 && 28 <= usable && 1 <= perRow <= 3
        && (perRow > 1 ==> perRow <= (usable + 4) / (width + 4))
    ensures perRow > 1 ==> (usable - perRow * width) / (perRow - 1) >= 4
    ensures perRow > 1 ==> (perRow - 1) * ((usable - perRow * width) / (perRow - 1)) <= usable - perRow * width
  {
    if perRow > 1 {
      FitsWhenDivided(perRow, width + 4, usable + 4);
      if perRow == 3 {
        HalfIsAtLeast(usable - 3 * width);
      }
    }
  }

  lemma FitsWhenDivided(n: int, step: int, total: int)
    requires n in {2, 3} && 0 < step && 0 <= total && n <= total / step
    ensures n * step <= total
  {
    var q := total / step;
    assert total == q * step + total % step;
    Scaled(n, q, step);
  }

  lemma HalfIsAtLeast(x: int)
    requires x >= 8
    ensures x / 2 >= 4 && 2 * (x / 2) <= x
  {
  }

  /** The box of the `index`-th node: rows run alternately left to right and right to left. */
  function BoxAt(g: Geometry, count: nat, index: nat): Position
    requires g.perRow > 0 && index < count
  {
    var row, offset := index / g.perRow, index % g.perRow;
    var inRow := Min(g.perRow, count - row * g.perRow);
    var column := if row % 2 == 0 then offset else inRow - offset - 1;
    Position(2 + column * (g.width + g.gap), 2 + row * 7)
  }

  /** The placement loop. */
  method PlaceBoxes(count: nat, pathLength: nat, desired: nat, available: int)
      returns (g: Geometry, positions: seq<Position>)
    requires count > 0
    ensures g == GeometryOf(count, pathLength, desired, available)
    ensures |positions| == count
    ensures forall i :: 0 <= i < count ==> positions[i] == BoxAt(g, count, i)
  {
    g := GeometryOf(count, pathLength, desired, available);
    positions := [];
    for index := 0 to count
      invariant |positions| == index
      invariant forall i :: 0 <= i < index ==> positions[i] == BoxAt(g, count, i)
    {
      var row, offset := index / g.perRow, index % g.perRow;
      var inRow := Min(g.perRow, count - row * g.perRow);
      var column := if row % 2 == 0 then offset else inRow - offset - 1;
      positions := positions + [Position(2 + column * (g.width + g.gap), 2 + row * 7)];
    }
  }

  /** The column a box lies in, as a number below the row's size. */
  lemma ColumnInRow(perRow: int, count: nat, index: nat)
    requires 1 <= perRow <= 3 && index < count
    ensures var (row, offset, inRow) := (index / perRow, index % perRow, Min(perRow, count - index / perRow * perRow));
            0 <= offset < inRow <= perRow && index == row * perRow + offset
  {
    if perRow == 1 { } else if perRow == 2 { } else { assert perRow == 3; }
  }

  /** The canvas is sized from the lowest box, which is in the last row. */
  function CanvasRows(g: Geometry, count: nat, edges: nat): int
    requires g.perRow > 0 && count > 0
  {
    BoxAt(g, count, count - 1).y + 5 + edges * 2
  }

  /** Where the row of the next box begins, and where a row that is followed by another one ends. */
  lemma NextInRow(perRow: int, index: nat)
    requires 1 <= perRow <= 3
    ensures var (row, offset) := (index / perRow, index % perRow);
            if offset < perRow - 1 then (index + 1) / perRow == row && (index + 1) % perRow == offset + 1
            else (index + 1) / perRow == row + 1 && (index + 1) % perRow == 0
  {
    if perRow == 1 { } else if perRow == 2 { } else { assert perRow == 3; }
  }

  /** The column of a box: odd rows run backwards. */
  function ColumnOf(perRow: int, count: nat, index: nat): int
    requires perRow > 0 && index < count
  {
    var row, offset := index / perRow, index % perRow;
    if row % 2 == 0 then offset else Min(perRow, count - row * perRow) - offset - 1
  }

  lemma ConsecutiveColumns(perRow: int, count: nat, index: nat)
    requires 1 <= perRow <= 3 && index + 1 < count
    ensures var (a, b, row) := (ColumnOf(perRow, count, index), ColumnOf(perRow, count, index + 1), index / perRow);
            if (index + 1) % perRow != 0 then b - a == if row % 2 == 0 then 1 else -1
            else a == b <==> row % 2 == 1 || index + 1 + perRow <= count
  {
    ColumnInRow(perRow, count, index);
    ColumnInRow(perRow, count, index + 1);
    NextInRow(perRow, index);
  }

  lemma BoxColumn(g: Geometry, count: nat, index: nat)
    requires g.perRow > 0 && index < count
    ensures BoxAt(g, count, index)
         == Position(2 + ColumnOf(g.perRow, count, index) * (g.width + g.gap), 2 + index / g.perRow * 7)
  {
  }

  /**
   The boxes of consecutive nodes: next to each other in the direction of the
   row, or one row apart — and then below each other unless the new row runs
   backwards and is not full.
   */
  lemma ConsecutiveBoxesMeetExactly(count: nat, pathLength: nat, desired: nat, available: int, index: nat)
    requires index + 1 < count
    ensures var g := GeometryOf(count, pathLength, desired, available);
            var (p, q, row) := (BoxAt(g, count, index), BoxAt(g, count, index + 1), index / g.perRow);
            if (index + 1) % g.perRow != 0 then
              p.y == q.y && q.x - p.x == (if row % 2 == 0 then g.width + g.gap else -(g.width + g.gap))
            else
              p.y + 7 == q.y && (p.x == q.x <==> row % 2 == 1 || index + 1 + g.perRow <= count)
  {
    var g := GeometryOf(count, pathLength, desired, available);
    hide GeometryOf, BoxAt, ColumnOf;
    BoxColumn(g, count, index);
    BoxColumn(g, count, index + 1);
    NextInRow(g.perRow, index);
    ConsecutiveColumns(g.perRow, count, index);
    StepsApart(ColumnOf(g.perRow, count, index), ColumnOf(g.perRow, count, index + 1), g.width + g.gap);
  }

  lemma StepsApart(a: int, b: int, step: int)
    requires step > 0
    ensures a * step == b * step <==> a == b
    ensures b == a + 1 ==> b * step == a * step + step
    ensures b == a - 1 ==> b * step == a * step - step
  {
  }

  /** Every box lies inside the canvas. */
  lemma BoxesInside(count: nat, pathLength: nat, desired: nat, available: int, edges: nat, index: nat)
    requires index < count
    ensures var g := GeometryOf(count, pathLength, desired, available);
            var p := BoxAt(g, count, index);
            && 2 <= p.x && p.x + g.width <= g.columns
            && 2 <= p.y <= BoxAt(g, count, count - 1).y
            && p.y + BOX_HEIGHT <= CanvasRows(g, count, edges)
  {
    var g := GeometryOf(count, pathLength, desired, available);
    ColumnInRow(g.perRow, count, index);
    var row, offset := index / g.perRow, index % g.perRow;
    var inRow := Min(g.perRow, count - row * g.perRow);
    var column := if row % 2 == 0 then offset else inRow - offset - 1;
    Scaled(column, g.perRow - 1, g.width + g.gap);
    RowsGrow(g.perRow, index, count - 1);
  }

  lemma Scaled(a: int, b: int, c: int)
    requires 0 <= a <= b && c >= 0
    ensures 0 <= a * c <= b * c
  {
  }

  lemma RowsGrow(perRow: int, i: nat, j: nat)
    requires 1 <= perRow <= 3 && i <= j
    ensures i / perRow <= j / perRow
  {
    if perRow == 1 { } else if perRow == 2 { } else { assert perRow == 3; }
  }

  predicate Apart(p: Position, q: Position, width: int, gap: int) {
    p.x + width + gap <= q.x || q.x + width + gap <= p.x
  }

  /**
   No two boxes meet: boxes of one row keep a gap of at least four columns, and
   boxes of different rows keep at least four lines.
   */
  lemma BoxesDisjoint(count: nat, pathLength: nat, desired: nat, available: int, i: nat, j: nat)
    requires i < j < count
    ensures var g := GeometryOf(count, pathLength, desired, available);
            var p, q := BoxAt(g, count, i), BoxAt(g, count, j);
            if p.y == q.y then Apart(p, q, g.width, 4) else p.y + BOX_HEIGHT + 4 <= q.y
  {
    var g := GeometryOf(count, pathLength, desired, available);
    ColumnInRow(g.perRow, count, i);
    ColumnInRow(g.perRow, count, j);
    RowsGrow(g.perRow, i, j);
    if i / g.perRow == j / g.perRow {
      var row := i / g.perRow;
      assert i % g.perRow != j % g.perRow;
      var inRow := Min(g.perRow, count - row * g.perRow);
      var a := if row % 2 == 0 then i % g.perRow else inRow - i % g.perRow - 1;
      var b := if row % 2 == 0 then j % g.perRow else inRow - j % g.perRow - 1;
      Spread(a, b, g.width + g.gap);
    }
  }

  lemma Product(a: int, b: int)
    requires a >= 0 && b >= 0
    ensures a * b >= 0
  {
  }

  lemma Spread(a: int, b: int, step: int)
    requires a != b && step >= 0
    ensures a * step + step <= b * step || b * step + step <= a * step
  {
    if a < b {
      Product(b - a - 1, step);
      assert b * step == (b - a - 1) * step + a * step + step;
    } else {
      Product(a - b - 1, step);
      assert a * step == (a - b - 1) * step + b * step + step;
    }
  }

  // ----- rows and rails of the serial layout

  /** Row and column of the `index`-th node of the path. */
  function SerialCell(perRow: nat, index: nat): (cell: (nat, nat))
    requires perRow > 0
    ensures cell.1 < perRow
  {
    var row, offset := index / perRow, index % perRow;
    (row, if row % 2 == 1 then perRow - offset - 1 else offset)
  }

  /** Consecutive nodes are neighbours in a row, or stand above each other where the path turns. */
  lemma ConsecutiveNodesMeet(perRow: nat, index: nat)
    requires perRow > 0
    ensures var a, b := SerialCell(perRow, index), SerialCell(perRow, index + 1);
            || (a.0 == b.0 && (a.1 + 1 == b.1 || b.1 + 1 == a.1))
            || (a.0 + 1 == b.0 && a.1 == b.1)
  {
    var row, offset := index / perRow, index % perRow;
    assert index == row * perRow + offset;
    if offset + 1 < perRow {
      DivModUnique(index + 1, perRow, row, offset + 1);
    } else {
      assert index + 1 == (row + 1) * perRow + 0;
      DivModUnique(index + 1, perRow, row + 1, 0);
    }
  }

  /** The serpentine visits every cell once. */
  lemma SerialCellsDistinct(perRow: nat, i: nat, j: nat)
    requires perRow > 0 && SerialCell(perRow, i) == SerialCell(perRow, j)
    ensures i == j
  {
    assert i == i / perRow * perRow + i % perRow && j == j / perRow * perRow + j % perRow;
  }

  function Count(targets: seq<nat>, row: nat): nat {
    if targets == [] then 0
    else Count(targets[..|targets| - 1], row) + (if targets[|targets| - 1] == row then 1 else 0)
  }

  /** The most feedback edges any of the first rows is the target of. */
  function MostIn(targets: seq<nat>, rowCount: nat): (most: nat)
    ensures forall row :: 0 <= row < rowCount ==> Count(targets, row) <= most
  {
    if rowCount == 0 then 0 else Max(MostIn(targets, rowCount - 1), Count(targets, rowCount - 1))
  }

  function RowHeight(targets: seq<nat>, rowCount: nat): nat {
    4 + MostIn(targets, rowCount)
  }

  /** The line of the `k`-th routed feedback edge, below the row it leads back to. */
  function Rail(targets: seq<nat>, height: nat, k: nat): nat
    requires k < |targets|
  {
    targets[k] * height + 2 + Count(targets[..k], targets[k])
  }

  /** The routing loop with its per-row offsets. */
  method RouteFeedback(targets: seq<nat>, height: nat) returns (rails: seq<nat>)
    ensures |rails| == |targets|
    ensures forall k :: 0 <= k < |targets| ==> rails[k] == Rail(targets, height, k)
  {
    rails := [];
    var targetRowOffsets: map<nat, nat> := map[];
    for k := 0 to |targets|
      invariant |rails| == k
      invariant forall i :: 0 <= i < k ==> rails[i] == Rail(targets, height, i)
      invariant forall row: nat ::
          (if row in targetRowOffsets then targetRowOffsets[row] else 0)
          == Count(targets[..k], row)
    {
      var row: nat := targets[k];
      var offset: nat := if row in targetRowOffsets then targetRowOffsets[row] else 0;
      targetRowOffsets := targetRowOffsets[row := offset + 1];
      rails := rails + [row * height + 2 + offset];
      assert targets[..k + 1][..k] == targets[..k];
    }
  }

  lemma {:induction false} CountGrows(targets: seq<nat>, i: nat, j: nat, row: nat)
    requires i <= j <= |targets|
    ensures Count(targets[..i], row) <= Count(targets[..j], row)
    ensures i < j && targets[i] == row ==> Count(targets[..i], row) < Count(targets[..j], row)
    decreases j
  {
    if i < j {
      assert targets[..j][..j - 1] == targets[..j - 1];
      CountGrows(targets, i, j - 1, row);
    }
  }

  /** Every rail lies strictly between the row of its target and the next, and inside the canvas. */
  lemma RailsBetweenRows(targets: seq<nat>, rowCount: nat, k: nat)
    requires k < |targets| && forall i :: 0 <= i < |targets| ==> targets[i] < rowCount
    ensures var height := RowHeight(targets, rowCount);
            && targets[k] * height + 2 <= Rail(targets, height, k)
            && Rail(targets, height, k) + 2 < (targets[k] + 1) * height <= rowCount * height
  {
    var height, row := RowHeight(targets, rowCount), targets[k];
    CountGrows(targets, k, |targets|, row);
    assert targets[..|targets|] == targets;
    RailArithmetic(row, rowCount, height, Count(targets[..k], row));
  }

  lemma RailArithmetic(row: nat, rowCount: nat, height: nat, offset: nat)
    requires row < rowCount && offset + 5 <= height
    ensures row * height + 2 + offset + 2 < (row + 1) * height <= rowCount * height
  {
    Scaled(row + 1, rowCount, height);
    assert (row + 1) * height == row * height + height;
  }

  /** No two feedback edges share a rail. */
  lemma RailsDistinct(targets: seq<nat>, rowCount: nat, i: nat, j: nat)
    requires i < j < |targets| && forall k :: 0 <= k < |targets| ==> targets[k] < rowCount
    ensures var height := RowHeight(targets, rowCount);
            Rail(targets, height, i) != Rail(targets, height, j)
  {
    var height := RowHeight(targets, rowCount);
    CountGrows(targets, i, j, targets[i]);
    RailsBetweenRows(targets, rowCount, i);
    RailsBetweenRows(targets, rowCount, j);
    if targets[i] < targets[j] {
      Scaled(targets[i] + 1, targets[j], height);
    } else if targets[j] < targets[i] {
      Scaled(targets[j] + 1, targets[i], height);
    }
  }
}
