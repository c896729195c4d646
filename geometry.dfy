/** Grid coordinates and the straight walks between two cells (getFullPath in game.js). */
module Geometry {

  /** A grid position; game.js stores it as a two-element array [row, col]. */
  datatype Cell = Cell(row: int, col: int)

  function Abs(x: int): nat { if x < 0 then -x else x }

  function Max(a: int, b: int): int { if a < b then b else a }

  function Min(a: int, b: int): int { if a < b then a else b }

  /** JavaScript's Math.sign on integers. */
  function Sign(x: int): int { if x < 0 then -1 else if x > 0 then 1 else 0 }

  predicate InBounds(n: int, c: Cell) {
    0 <= c.row < n && 0 <= c.col < n
  }

  /** The three segment shapes the game accepts: one row, one column, or a 45-degree diagonal. */
  predicate Collinear(a: Cell, b: Cell) {
    a.row == b.row || a.col == b.col || Abs(b.row - a.row) == Abs(b.col - a.col)
  }

  /** x moved k units in the direction s (s is -1, 0 or 1). */
  function Shift(x: int, s: int, k: nat): int {
    if s == 1 then x + k else if s == -1 then x - k else x
  }

  /** c moved k steps along the direction (dr, dc). */
  function Move(c: Cell, dr: int, dc: int, k: nat): Cell {
    Cell(Shift(c.row, dr, k), Shift(c.col, dc, k))
  }

  /** Number of steps the walk from a to b takes: the larger of the two coordinate distances. */
  function Span(a: Cell, b: Cell): nat {
    Max(Abs(b.row - a.row), Abs(b.col - a.col))
  }

  /** One coordinate after k unit steps from `from` towards `to`; it stays put once it arrives. */
  function Approach(from: int, to: int, k: nat): int {
    if Abs(to - from) <= k then to else if from < to then from + k else from - k
  }

  /** The cell the walk from a to b has reached after k steps; each coordinate moves on its own. */
  function PointAt(a: Cell, b: Cell, k: nat): Cell {
    Cell(Approach(a.row, b.row, k), Approach(a.col, b.col, k))
  }

  /** The cells getFullPath lists for the endpoints a and b, in order. */
  function FullPath(a: Cell, b: Cell): seq<Cell> {
    seq(Span(a, b) + 1, (k: int) requires 0 <= k => PointAt(a, b, k))
  }

  /** One iteration of getFullPath's loop: every coordinate not yet at its target moves one unit towards it. */
  lemma ApproachStep(from: int, to: int, k: nat)
    ensures Approach(from, to, k + 1)
         == if Approach(from, to, k) != to then Approach(from, to, k) + Sign(to - from) else to
    ensures Approach(from, to, k) == to <==> Abs(to - from) <= k
  {
  }

  /**
   * getFullPath, game.js:157-182. It starts at the first endpoint and moves each coordinate
   * one unit towards the second endpoint until both coordinates have arrived; it terminates for
   * any pair of cells, collinear or not.
   */
  method GetFullPath(a: Cell, b: Cell) returns (path: seq<Cell>)
    ensures path == FullPath(a, b)
  {
    path := [];
    var row, col := a.row, a.col;
    var rowDirection, colDirection := Sign(b.row - a.row), Sign(b.col - a.col);
    path := path + [Cell(row, col)];
    while row != b.row || col != b.col
      invariant 1 <= |path| <= Span(a, b) + 1
      invariant Cell(row, col) == PointAt(a, b, |path| - 1)
      invariant path == FullPath(a, b)[..|path|]
      decreases Abs(b.row - row) + Abs(b.col - col)
    {
      ApproachStep(a.row, b.row, |path| - 1);
      ApproachStep(a.col, b.col, |path| - 1);
      if row != b.row {
        row := row + rowDirection;
      }
      if col != b.col {
        col := col + colDirection;
      }
      path := path + [Cell(row, col)];
    }
    ApproachStep(a.row, b.row, |path| - 1);
    ApproachStep(a.col, b.col, |path| - 1);
  }

  /**
   * The shape of every walk: it starts at a, ends at b, has max(|dr|, |dc|) + 1 cells, and two
   * consecutive cells are distinct and differ by at most one in each coordinate.
   */
  lemma FullPathShape(a: Cell, b: Cell)
    ensures |FullPath(a, b)| == Max(Abs(b.row - a.row), Abs(b.col - a.col)) + 1
    ensures FullPath(a, b)[0] == a
    ensures FullPath(a, b)[|FullPath(a, b)| - 1] == b
    ensures forall k :: 0 <= k < |FullPath(a, b)| - 1 ==>
      var p, q := FullPath(a, b)[k], FullPath(a, b)[k + 1];
      p != q && Abs(q.row - p.row) <= 1 && Abs(q.col - p.col) <= 1
  {
    var path := FullPath(a, b);
    forall k | 0 <= k < |path| - 1
      ensures path[k] != path[k + 1]
      ensures Abs(path[k + 1].row - path[k].row) <= 1 && Abs(path[k + 1].col - path[k].col) <= 1
    {
      ApproachStep(a.row, b.row, k);
      ApproachStep(a.col, b.col, k);
    }
  }

  /** A walk never visits a cell twice (the coordinate with the larger distance moves at every step). */
  lemma FullPathDistinct(a: Cell, b: Cell)
    ensures forall i, j :: 0 <= i < j < |FullPath(a, b)| ==> FullPath(a, b)[i] != FullPath(a, b)[j]
  {
    var path := FullPath(a, b);
    forall i, j | 0 <= i < j < |path|
      ensures path[i] != path[j]
    {
      if Abs(b.row - a.row) >= Abs(b.col - a.col) {
        assert path[i].row != path[j].row;
      } else {
        assert path[i].col != path[j].col;
      }
    }
  }

  /** Every cell of a walk lies between its endpoints, so a walk between grid cells stays on the grid. */
  lemma FullPathInBounds(n: int, a: Cell, b: Cell)
    requires InBounds(n, a) && InBounds(n, b)
    ensures forall k :: 0 <= k < |FullPath(a, b)| ==> InBounds(n, FullPath(a, b)[k])
  {
  }

  /**
   * Between collinear endpoints the walk is a straight line: the k-th cell is a moved k steps in
   * the one direction (sign dr, sign dc).
   */
  lemma StraightFullPath(a: Cell, b: Cell)
    requires Collinear(a, b)
    ensures forall k :: 0 <= k < |FullPath(a, b)| ==>
      FullPath(a, b)[k] == Move(a, Sign(b.row - a.row), Sign(b.col - a.col), k)
  {
  }

  /**
   * Between endpoints that are not collinear the walk is a diagonal run of min(|dr|, |dc|) steps
   * followed by a straight run along the axis that still has distance left.
   */
  lemma BentFullPath(a: Cell, b: Cell)
    requires !Collinear(a, b)
    ensures forall k :: 0 <= k <= Min(Abs(b.row - a.row), Abs(b.col - a.col)) ==>
      FullPath(a, b)[k] == Move(a, Sign(b.row - a.row), Sign(b.col - a.col), k)
    ensures forall k :: Min(Abs(b.row - a.row), Abs(b.col - a.col)) <= k < |FullPath(a, b)| ==>
      FullPath(a, b)[k].row == b.row || FullPath(a, b)[k].col == b.col
  {
  }

  /** Membership in a walk, by the step count at which the cell is reached. */
  lemma InFullPath(a: Cell, b: Cell, x: Cell, k: nat)
    requires k <= Span(a, b) && x == PointAt(a, b, k)
    ensures x in FullPath(a, b)
  {
    assert FullPath(a, b)[k] == x;
  }
  /** Along one coordinate that moves the whole span or not at all, walking back mirrors walking forth. */
  lemma ApproachReversed(x: int, y: int, m: nat, k: nat)
    requires Abs(y - x) == m || x == y
    requires k <= m
    ensures Approach(y, x, k) == Approach(x, y, m - k)
  {
  }

  /** Between collinear endpoints the walk back is the walk forth read in reverse. */
  lemma CollinearFullPathReversed(a: Cell, b: Cell)
    requires Collinear(a, b)
    ensures |FullPath(b, a)| == |FullPath(a, b)|
    ensures forall k :: 0 <= k < |FullPath(a, b)| ==>
      FullPath(b, a)[k] == FullPath(a, b)[|FullPath(a, b)| - 1 - k]
  {
    var m := Span(a, b);
    assert Span(b, a) == m;
    forall k | 0 <= k <= m
      ensures FullPath(b, a)[k] == FullPath(a, b)[m - k]
    {
      ApproachReversed(a.row, b.row, m, k);
      ApproachReversed(a.col, b.col, m, k);
    }
  }
}
