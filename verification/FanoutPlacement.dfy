/**
 Where the fan-out layout puts its boxes
 (dashboard/src/components/LoopGraph/ascii-layout.ts): the planner on top, one
 column per branch, the tail below.
 */
module FanoutPlacement {
  import opened Arithmetic
  import opened Wrappers
  import opened Serpentine

  type Id = string

  /** A box and the node it is drawn for. */
  datatype Placed = Placed(id: Id, at: Position)

  datatype Plan = Plan(planner: Id, branches: seq<seq<Id>>, tail: seq<Id>, columns: int, width: int, edges: nat)

  /** What `fanoutLayout` has checked before it places anything: two branches or more, and room for them. */
  predicate HasRoom(f: Plan) {
    var n := |f.branches|;
    n >= 2 && f.width >= 16 && f.width * n + 8 * (n - 1) <= f.columns - 4
  }

  // ----- the rows and columns

  /** `Math.round(a / m)`. */
  function Rounded(a: nat, m: nat): nat
    requires m > 0
  {
    (2 * a + m) / (2 * m)
  }

  /** The width that the left edges of the branches share out. */
  function Slack(f: Plan): (s: nat)
    requires HasRoom(f)
    ensures s >= (f.width + 8) * (|f.branches| - 1)
  {
    assert f.width * |f.branches| == f.width * (|f.branches| - 1) + f.width;
    assert (f.width + 8) * (|f.branches| - 1) == f.width * (|f.branches| - 1) + 8 * (|f.branches| - 1);
    f.columns - 4 - f.width
  }

  /** The left edge of a branch. */
  function BranchX(f: Plan, i: nat): int
    requires HasRoom(f)
  {
    2 + Rounded(i * Slack(f), |f.branches| - 1)
  }

  function PlannerX(f: Plan): int {
    (f.columns - f.width) / 2
  }

  function Longest(branches: seq<seq<Id>>): (n: nat)
    ensures forall i :: 0 <= i < |branches| ==> |branches[i]| <= n
  {
    if branches == [] then 0
    else
      var before, last := Longest(branches[..|branches| - 1]), |branches[|branches| - 1]|;
      if last > before then last else before
  }

  function TailY(f: Plan): int {
    9 + Longest(f.branches) * 5
  }

  function Rows(f: Plan): int {
    TailY(f) + |f.tail| * 5 + f.edges * 2 + 4
  }

  // ----- the boxes, in the order they are placed

  /** A path downwards, five rows a box. */
  function Column(path: seq<Id>, x: int, y: int): (boxes: seq<Placed>)
    ensures |boxes| == |path|
  {
    seq(|path|, r requires 0 <= r < |path| => Placed(path[r], Position(x, y + r * 5)))
  }

  function Branches(f: Plan, n: nat): seq<Placed>
    requires HasRoom(f) && n <= |f.branches|
  {
    if n == 0 then [] else Branches(f, n - 1) + Column(f.branches[n - 1], BranchX(f, n - 1), 8)
  }

  function Boxes(f: Plan): seq<Placed>
    requires HasRoom(f)
  {
    [Placed(f.planner, Position(PlannerX(f), 2))] + Branches(f, |f.branches|) + Column(f.tail, PlannerX(f), TailY(f))
  }

  /** `positions`: a node placed twice stays where it was placed last. */
  function Assigned(boxes: seq<Placed>): map<Id, Position> {
    if boxes == [] then map[]
    else
      var last := boxes[|boxes| - 1];
      Assigned(boxes[..|boxes| - 1])[last.id := last.at]
  }

  lemma AssignOne(boxes: seq<Placed>, box: Placed)
    ensures Assigned(boxes + [box]) == Assigned(boxes)[box.id := box.at]
  {
    assert (boxes + [box])[..|boxes|] == boxes;
  }

  /** The placement loops. */
  method PlaceFanout(f: Plan) returns (positions: map<Id, Position>)
    requires HasRoom(f)
    ensures positions == Assigned(Boxes(f))
  {
    hide Column, HasRoom, Branches, BranchX, PlannerX, TailY, Assigned;
    ghost var boxes := [Placed(f.planner, Position(PlannerX(f), 2))];
    positions := map[f.planner := Position(PlannerX(f), 2)];
    FirstBox(f);
    for column := 0 to |f.branches|
      invariant positions == Assigned(boxes + Branches(f, column))
    {
      positions := PlaceColumn(f.branches[column], BranchX(f, column), 8, positions, boxes + Branches(f, column));
      NextBranch(f, column, boxes);
    }
    positions := PlaceColumn(f.tail, PlannerX(f), TailY(f), positions, boxes + Branches(f, |f.branches|));
  }

  lemma FirstBox(f: Plan)
    requires HasRoom(f)
    ensures var box := Placed(f.planner, Position(PlannerX(f), 2));
            Assigned([box] + Branches(f, 0)) == map[f.planner := box.at]
  {
    hide PlannerX, HasRoom;
    var box := Placed(f.planner, Position(PlannerX(f), 2));
    AssignOne([], box);
    assert [] + [box] == [box] && [box] + Branches(f, 0) == [box];
  }

  lemma NextBranch(f: Plan, n: nat, boxes: seq<Placed>)
    requires HasRoom(f) && n < |f.branches|
    ensures boxes + Branches(f, n) + Column(f.branches[n], BranchX(f, n), 8) == boxes + Branches(f, n + 1)
  {
    hide HasRoom, BranchX, Column;
  }

  method PlaceColumn(path: seq<Id>, x: int, y: int, before: map<Id, Position>, ghost boxes: seq<Placed>)
    returns (positions: map<Id, Position>)
    requires before == Assigned(boxes)
    ensures positions == Assigned(boxes + Column(path, x, y))
  {
    hide Assigned;
    ghost var column := Column(path, x, y);
    positions := before;
    assert boxes + column[..0] == boxes;
    for row := 0 to |path|
      invariant positions == Assigned(boxes + column[..row])
    {
      positions := positions[path[row] := Position(x, y + row * 5)];
      AssignOne(boxes + column[..row], column[row]);
      assert boxes + column[..row] + [column[row]] == boxes + column[..row + 1];
    }
    assert column[..|path|] == column;
  }

  // ----- where the columns stand

  lemma {:induction false} QuotientMoves(a: nat, d: nat, t: nat)
    requires d > 0
    ensures (a + t * d) / d == a / d + t
  {
    if t > 0 {
      QuotientMoves(a, d, t - 1);
      assert t * d == (t - 1) * d + d;
      DivideShifted(a + (t - 1) * d, d);
    }
  }

  /** Rounding keeps whole distances. */
  lemma RoundedMoves(a: nat, b: nat, m: nat, t: nat)
    requires m > 0 && a + t * m <= b
    ensures Rounded(a, m) + t <= Rounded(b, m)
  {
    QuotientMoves(2 * a + m, 2 * m, t);
    assert t * (2 * m) == 2 * (t * m);
    DivideMonotone(2 * a + m + t * (2 * m), 2 * b + m, 2 * m);
  }

  lemma RoundedWhole(t: nat, m: nat)
    requires m > 0
    ensures Rounded(t * m, m) == t && Rounded(0, m) == 0
  {
    QuotientMoves(m, 2 * m, t);
    assert t * (2 * m) == 2 * (t * m);
    DivModUnique(m, 2 * m, 0, m);
  }

  /** Neighbouring branches leave a gap of at least eight. */
  lemma NextBranchIsApart(f: Plan, i: nat)
    requires HasRoom(f)
    ensures BranchX(f, i) + f.width + 8 <= BranchX(f, i + 1)
  {
    var s, m := Slack(f), |f.branches| - 1;
    assert (i + 1) * s == i * s + s;
    assert (f.width + 8) * m <= s;
    RoundedMoves(i * s, (i + 1) * s, m, f.width + 8);
  }

  lemma {:induction false} BranchesAreApart(f: Plan, i: nat, j: nat)
    requires HasRoom(f) && i < j
    ensures BranchX(f, i) + f.width + 8 <= BranchX(f, j)
    decreases j
  {
    hide BranchX;
    NextBranchIsApart(f, j - 1);
    if i < j - 1 {
      BranchesAreApart(f, i, j - 1);
    }
  }

  /** The first branch starts at column 2 and the last ends two columns before the right edge. */
  lemma OuterBranches(f: Plan)
    requires HasRoom(f)
    ensures BranchX(f, 0) == 2 && BranchX(f, |f.branches| - 1) + f.width == f.columns - 2
  {
    var s, m := Slack(f), |f.branches| - 1;
    RoundedWhole(s, m);
    assert m * s == s * m;
  }

  // ----- no two boxes meet

  /** Two boxes are eight columns apart, or two rows. */
  predicate Clear(p: Position, q: Position, width: int) {
    || p.x + width + 8 <= q.x || q.x + width + 8 <= p.x
    || p.y + BOX_HEIGHT + 2 <= q.y || q.y + BOX_HEIGHT + 2 <= p.y
  }

  ghost predicate AllClear(boxes: seq<Placed>, width: int) {
    forall i, j :: 0 <= i < j < |boxes| ==> Clear(boxes[i].at, boxes[j].at, width)
  }

  ghost predicate ClearOf(a: seq<Placed>, b: seq<Placed>, width: int) {
    forall i, j :: 0 <= i < |a| && 0 <= j < |b| ==> Clear(a[i].at, b[j].at, width)
  }

  lemma AppendClear(a: seq<Placed>, b: seq<Placed>, width: int)
    requires AllClear(a, width) && AllClear(b, width) && ClearOf(a, b, width)
    ensures AllClear(a + b, width)
  {
    hide Clear;
  }

  /** The boxes lie in these rows, and, if it matters, left of this column. */
  ghost predicate Within(boxes: seq<Placed>, left: int, right: int, top: int, bottom: int) {
    forall i :: 0 <= i < |boxes|
        ==> left <= boxes[i].at.x <= right && top <= boxes[i].at.y && boxes[i].at.y + BOX_HEIGHT <= bottom
  }

  lemma ColumnStands(path: seq<Id>, x: int, y: int, width: int)
    ensures AllClear(Column(path, x, y), width)
    ensures Within(Column(path, x, y), x, x, y, y + |path| * 5 - 2)
  {
  }

  lemma {:induction false} BranchesStand(f: Plan, n: nat)
    requires HasRoom(f) && n <= |f.branches|
    ensures AllClear(Branches(f, n), f.width)
    ensures Within(Branches(f, n), 2, BranchX(f, n) - f.width - 8, 8, TailY(f) - 3)
  {
    assert f.width >= 16;
    hide BranchX, Column, Longest, HasRoom, Clear;
    FirstBranch(f);
    if n > 0 {
      var before, column := Branches(f, n - 1), Column(f.branches[n - 1], BranchX(f, n - 1), 8);
      BranchesStand(f, n - 1);
      ColumnStands(f.branches[n - 1], BranchX(f, n - 1), 8, f.width);
      NextBranchIsApart(f, n - 1);
      RightOfTheFirst(f, n - 1);
      ColumnsClear(before, column, BranchX(f, n - 1), f.width, TailY(f) - 3, 8 + |f.branches[n - 1]| * 5 - 2);
      AppendClear(before, column, f.width);
    }
  }

  lemma FirstBranch(f: Plan)
    requires HasRoom(f)
    ensures BranchX(f, 0) == 2
  {
    OuterBranches(f);
  }

  lemma RightOfTheFirst(f: Plan, i: nat)
    requires HasRoom(f)
    ensures BranchX(f, i) >= 2
  {
    OuterBranches(f);
    if i > 0 {
      BranchesAreApart(f, 0, i);
    }
  }

  lemma ColumnsClear(a: seq<Placed>, b: seq<Placed>, x: int, width: int, bottom: int, end: int)
    requires Within(a, 2, x - width - 8, 8, bottom) && Within(b, x, x, 8, end)
    ensures ClearOf(a, b, width)
  {
  }

  lemma BandsClear(a: seq<Placed>, b: seq<Placed>, width: int, l: int, r: int, t: int, bottom: int, l': int, r': int,
      top: int, b': int)
    requires Within(a, l, r, t, bottom) && Within(b, l', r', top, b') && bottom + 2 <= top
    ensures ClearOf(a, b, width)
  {
  }

  /** Planner, branches and tail: no two of the boxes meet. */
  lemma BoxesAreClear(f: Plan)
    requires HasRoom(f)
    ensures AllClear(Boxes(f), f.width)
  {
    hide Branches, Column, Longest, HasRoom, BranchX, Clear;
    var n := |f.branches|;
    var top, middle, bottom := [Placed(f.planner, Position(PlannerX(f), 2))], Branches(f, n),
        Column(f.tail, PlannerX(f), TailY(f));
    BranchesStand(f, n);
    ColumnStands(f.tail, PlannerX(f), TailY(f), f.width);
    var right := BranchX(f, n) - f.width - 8;
    BandsClear(top, middle, f.width, PlannerX(f), PlannerX(f), 2, 5, 2, right, 8, TailY(f) - 3);
    AppendClear(top, middle, f.width);
    var x, end := PlannerX(f), TailY(f) + |f.tail| * 5 - 2;
    BandsClear(middle, bottom, f.width, 2, right, 8, TailY(f) - 3, x, x, TailY(f), end);
    BandsClear(top, bottom, f.width, x, x, 2, 5, x, x, TailY(f), end);
    JoinClear(top, middle, bottom, f.width);
  }

  lemma JoinClear(a: seq<Placed>, b: seq<Placed>, c: seq<Placed>, width: int)
    requires AllClear(a + b, width) && AllClear(c, width) && ClearOf(a, c, width) && ClearOf(b, c, width)
    ensures AllClear(a + b + c, width)
  {
    hide Clear;
    AppendClear(a + b, c, width);
  }

  // ----- the boxes lie inside the canvas

  lemma BoxesAreInside(f: Plan)
    requires HasRoom(f)
    ensures Within(Boxes(f), 2, f.columns - 2 - f.width, 2, Rows(f))
  {
    hide Branches, Column, Longest, HasRoom, BranchX;
    var n := |f.branches|;
    BranchesStandInside(f);
    BranchesStand(f, n);
    ColumnStands(f.tail, PlannerX(f), TailY(f), f.width);
    PlannerInside(f);
  }

  lemma PlannerInside(f: Plan)
    requires HasRoom(f)
    ensures 2 <= PlannerX(f) <= f.columns - 2 - f.width
  {
    var s := Slack(f);
    Product(f.width + 8, |f.branches| - 1);
  }

  lemma {:induction false} BranchesBelow(f: Plan, n: nat, right: int)
    requires HasRoom(f) && n <= |f.branches|
    requires forall i :: 0 <= i < n ==> BranchX(f, i) <= right
    ensures forall k :: 0 <= k < |Branches(f, n)| ==> Branches(f, n)[k].at.x <= right
  {
    hide BranchX, HasRoom;
    if n > 0 {
      BranchesBelow(f, n - 1, right);
    }
  }

  lemma BranchesStandInside(f: Plan)
    requires HasRoom(f)
    ensures forall k ::
        0 <= k < |Branches(f, |f.branches|)|
        ==> Branches(f, |f.branches|)[k].at.x <= f.columns - 2 - f.width
  {
    assert f.width >= 16;
    hide Branches, BranchX, HasRoom;
    var n := |f.branches|;
    OuterBranches(f);
    forall i | 0 <= i < n ensures BranchX(f, i) <= f.columns - 2 - f.width {
      if i < n - 1 {
        BranchesAreApart(f, i, n - 1);
      }
    }
    BranchesBelow(f, n, f.columns - 2 - f.width);
  }

  // ----- the boxes of the nodes

  /** A node has the position of the last box placed for it. */
  lemma {:induction false} AssignedIsLast(boxes: seq<Placed>, id: Id)
    ensures id in Assigned(boxes) ==> exists k: nat :: IsLastBox(boxes, id, k) && Assigned(boxes)[id] == boxes[k].at
  {
    if boxes != [] {
      var n := |boxes| - 1;
      var before := boxes[..n];
      AssignedIsLast(before, id);
      if boxes[n].id == id {
        assert IsLastBox(boxes, id, n);
      } else if id in Assigned(boxes) {
        var k: nat :| IsLastBox(before, id, k) && Assigned(before)[id] == before[k].at;
        LastStaysLast(boxes, id, k);
      }
    }
  }

  lemma LastStaysLast(boxes: seq<Placed>, id: Id, k: nat)
    requires boxes != [] && boxes[|boxes| - 1].id != id && IsLastBox(boxes[..|boxes| - 1], id, k)
    ensures IsLastBox(boxes, id, k) && boxes[k] == boxes[..|boxes| - 1][k]
  {
    var before := boxes[..|boxes| - 1];
    forall j | k < j < |boxes| ensures boxes[j].id != id {
      if j < |before| {
        assert before[j] == boxes[j];
      }
    }
  }

  predicate IsLastBox(boxes: seq<Placed>, id: Id, k: nat) {
    k < |boxes| && boxes[k].id == id && forall j :: k < j < |boxes| ==> boxes[j].id != id
  }

  /**
   Every node of the fan-out is placed inside the canvas, and no two nodes meet, however often a path repeats
   another's.
   */
  lemma NodesAreApart(f: Plan, a: Id, b: Id)
    requires HasRoom(f) && a in Assigned(Boxes(f)) && b in Assigned(Boxes(f)) && a != b
    ensures var positions := Assigned(Boxes(f));
            && Clear(positions[a], positions[b], f.width)
            && 2 <= positions[a].x <= f.columns - 2 - f.width
            && 2 <= positions[a].y && positions[a].y + BOX_HEIGHT <= Rows(f)
  {
    hide Assigned, Boxes, HasRoom, Rows;
    var boxes := Boxes(f);
    BoxesAreClear(f);
    BoxesAreInside(f);
    AssignedIsLast(boxes, a);
    AssignedIsLast(boxes, b);
    var i: nat :| IsLastBox(boxes, a, i) && Assigned(boxes)[a] == boxes[i].at;
    var j: nat :| IsLastBox(boxes, b, j) && Assigned(boxes)[b] == boxes[j].at;
    assert i != j;
    assert if i < j then Clear(boxes[i].at, boxes[j].at, f.width) else Clear(boxes[j].at, boxes[i].at, f.width);
  }

  // ----- every node has its box

  lemma {:induction false} BranchIsPlaced(f: Plan, n: nat, i: nat, r: nat)
    requires HasRoom(f) && i < n <= |f.branches| && r < |f.branches[i]|
    ensures Placed(f.branches[i][r], Position(BranchX(f, i), 8 + r * 5)) in Branches(f, n)
  {
    hide HasRoom, BranchX;
    if i < n - 1 {
      BranchIsPlaced(f, n - 1, i, r);
    } else {
      assert Column(f.branches[i], BranchX(f, i), 8)[r] in Column(f.branches[i], BranchX(f, i), 8);
    }
  }

  lemma {:induction false} LongestIsReached(branches: seq<seq<Id>>) returns (i: nat)
    requires branches != []
    ensures i < |branches| && |branches[i]| == Longest(branches)
  {
    i := |branches| - 1;
    if i > 0 {
      var before := LongestIsReached(branches[..i]);
      if |branches[i]| <= Longest(branches[..i]) { i := before; }
    }
  }

  /**
   The picture as it is meant: the planner centred at the top, every branch
   downwards from row 8 in its own column, and below the longest branch the
   tail downwards under the planner; five rows from one box to the next.
   */
  lemma EveryNodeHasItsBox(f: Plan) returns (x: int, y: int)
    requires HasRoom(f)
    ensures 0 <= (f.columns - (x + f.width)) - x <= 1
    ensures Placed(f.planner, Position(x, 2)) in Boxes(f)
    ensures forall i, r :: 0 <= i < |f.branches| && 0 <= r < |f.branches[i]| ==>
              Placed(f.branches[i][r], Position(BranchX(f, i), 8 + r * 5)) in Boxes(f)
    ensures forall i :: 0 <= i < |f.branches| ==> 9 + |f.branches[i]| * 5 <= y
    ensures exists i :: 0 <= i < |f.branches| && 9 + |f.branches[i]| * 5 == y
    ensures forall r :: 0 <= r < |f.tail| ==> Placed(f.tail[r], Position(x, y + r * 5)) in Boxes(f)
  {
    hide BranchX;
    x, y := PlannerX(f), TailY(f);
    var longest := LongestIsReached(f.branches);
    assert Boxes(f)[0] in Boxes(f);
    forall i, r | 0 <= i < |f.branches| && 0 <= r < |f.branches[i]|
      ensures Placed(f.branches[i][r], Position(BranchX(f, i), 8 + r * 5)) in Boxes(f)
    {
      BranchIsPlaced(f, |f.branches|, i, r);
    }
    forall r | 0 <= r < |f.tail| ensures Placed(f.tail[r], Position(x, y + r * 5)) in Boxes(f) {
      assert Column(f.tail, x, y)[r] in Column(f.tail, x, y);
    }
  }
}
