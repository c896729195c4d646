/** The breadth-first search of hasWon (game.js:194-232) and the reachability it decides. */
module Connectivity {
  import opened Geometry

  /** y is one of the eight in-bounds neighbours of x that hasWon enqueues. */
  predicate Adjacent(n: int, x: Cell, y: Cell) {
    x != y && Abs(y.row - x.row) <= 1 && Abs(y.col - x.col) <= 1 && InBounds(n, y)
  }

  /** The cells listed in any entry: hasWon's connectedCells. */
  function ConnectedCells(entries: seq<seq<Cell>>): set<Cell> {
    set e, x | e in entries && x in e :: x
  }

  /**
   * A walk the search can follow: consecutive cells are neighbours, and every cell but the last
   * is one the search expands (a connected cell). The last cell need only be enqueued.
   */
  ghost predicate IsWalk(n: int, conn: set<Cell>, p: seq<Cell>) {
    |p| >= 1 && forall i :: 0 <= i < |p| - 1 ==> p[i] in conn && Adjacent(n, p[i], p[i + 1])
  }

  ghost predicate Reaches(n: int, conn: set<Cell>, s: Cell, t: Cell) {
    exists p :: IsWalk(n, conn, p) && p[0] == s && p[|p| - 1] == t
  }

  /** What hasWon decides: some start point other than the first is reached from the first. */
  ghost predicate Linked(n: int, conn: set<Cell>, points: seq<Cell>) {
    |points| >= 1 && exists i :: 1 <= i < |points| && Reaches(n, conn, points[0], points[i])
  }

  lemma ReachesSelf(n: int, conn: set<Cell>, s: Cell)
    ensures Reaches(n, conn, s, s)
  {
    assert IsWalk(n, conn, [s]);
  }

  /** A walk to an expanded cell extends to each of its neighbours. */
  lemma ReachesStep(n: int, conn: set<Cell>, s: Cell, x: Cell, y: Cell)
    requires Reaches(n, conn, s, x) && x in conn && Adjacent(n, x, y)
    ensures Reaches(n, conn, s, y)
  {
    var p :| IsWalk(n, conn, p) && p[0] == s && p[|p| - 1] == x;
    var q := p + [y];
    assert IsWalk(n, conn, q);
  }

  /**
   * A set that holds s and every neighbour of each of its connected cells holds every cell
   * reachable from s: what the search has seen when its queue runs empty.
   */
  lemma ClosedHoldsReachable(n: int, conn: set<Cell>, s: Cell, seen: set<Cell>, t: Cell)
    requires s in seen
    requires forall x, y :: x in seen && x in conn && Adjacent(n, x, y) ==> y in seen
    requires Reaches(n, conn, s, t)
    ensures t in seen
  {
    var p :| IsWalk(n, conn, p) && p[0] == s && p[|p| - 1] == t;
    var i := 0;
    while i < |p| - 1
      invariant 0 <= i < |p| && p[i] in seen
    {
      assert p[i] in conn && Adjacent(n, p[i], p[i + 1]);
      i := i + 1;
    }
  }

  /** With no connected cells only the first start point itself is reached. */
  lemma NothingLinkedWithoutCells(n: int, points: seq<Cell>)
    requires |points| >= 1
    requires forall i :: 1 <= i < |points| ==> points[i] != points[0]
    ensures !Linked(n, {}, points)
  {
    forall t | Reaches(n, {}, points[0], t)
      ensures t == points[0]
    {
      var p :| IsWalk(n, {}, p) && p[0] == points[0] && p[|p| - 1] == t;
      assert |p| == 1;
    }
  }

  /**
   * The search succeeds when a later start point is dequeued, and it is enqueued as a neighbour
   * of a reachable connected cell whether or not it is itself a connected cell.
   */
  lemma LinkedThroughNeighbour(n: int, conn: set<Cell>, points: seq<Cell>, x: Cell, i: nat)
    requires 1 <= i < |points|
    requires Reaches(n, conn, points[0], x) && x in conn && Adjacent(n, x, points[i])
    ensures Linked(n, conn, points)
  {
    ReachesStep(n, conn, points[0], x, points[i]);
  }

  /** An instance: on a 3-by-3 grid the start point (0, 2) is reached through the word cells (0, 0), (0, 1). */
  lemma LinkedThroughNeighbourExample()
    ensures Cell(0, 2) !in {Cell(0, 0), Cell(0, 1)}
    ensures Linked(3, {Cell(0, 0), Cell(0, 1)}, [Cell(0, 0), Cell(0, 2)])
  {
    var conn := {Cell(0, 0), Cell(0, 1)};
    assert IsWalk(3, conn, [Cell(0, 0), Cell(0, 1)]);
    LinkedThroughNeighbour(3, conn, [Cell(0, 0), Cell(0, 2)], Cell(0, 1), 1);
  }

  /** More connected cells never disconnect what was linked: once won, a game stays won as words are added. */
  lemma LinkedMonotone(n: int, conn: set<Cell>, more: set<Cell>, points: seq<Cell>)
    requires conn <= more && Linked(n, conn, points)
    ensures Linked(n, more, points)
  {
    var i :| 1 <= i < |points| && Reaches(n, conn, points[0], points[i]);
    var p :| IsWalk(n, conn, p) && p[0] == points[0] && p[|p| - 1] == points[i];
    assert IsWalk(n, more, p);
  }

  /**
   * The forEach of game.js:196-198: the union of the cells listed in the entries.
   */
  method CollectCells(entries: seq<seq<Cell>>) returns (conn: set<Cell>)
    ensures conn == ConnectedCells(entries)
  {
    conn := {};
    for i := 0 to |entries|
      invariant conn == ConnectedCells(entries[..i])
    {
      var path := entries[i];
      for j := 0 to |path|
        invariant conn == ConnectedCells(entries[..i]) + set k | 0 <= k < j :: path[k]
      {
        conn := conn + {path[j]};
      }
      assert entries[..i + 1] == entries[..i] + [path];
      assert conn == ConnectedCells(entries[..i + 1]) by {
        forall x ensures x in conn <==> x in ConnectedCells(entries[..i + 1]) {
          if x in path {
            var k :| 0 <= k < |path| && path[k] == x;
          }
        }
      }
    }
    assert entries[..|entries|] == entries;
  }

  /** The double loop of game.js:218-227: the in-bounds neighbours of x. */
  method Neighbours(n: int, x: Cell) returns (r: seq<Cell>)
    ensures forall y :: y in r <==> Adjacent(n, x, y)
  {
    r := [];
    for i := -1 to 2
      invariant forall y :: y in r <==> Adjacent(n, x, y) && y.row - x.row < i
    {
      for j := -1 to 2
        invariant forall y :: y in r <==>
          Adjacent(n, x, y) && (y.row - x.row < i || (y.row - x.row == i && y.col - x.col < j))
      {
        if i == 0 && j == 0 {
          continue;
        }
        var y := Cell(x.row + i, x.col + j);
        if InBounds(n, y) {
          r := r + [y];
        }
      }
    }
  }

  /**
   * The search loop of hasWon, game.js:200-231: a queue seeded with points[0]; every dequeued
   * cell is first compared with points[1..]; a connected cell not yet visited is marked and its
   * in-bounds neighbours are enqueued. It answers true exactly when some later start point is
   * reachable, and it terminates because each round either visits a new connected cell or
   * shortens the queue.
   */
  method Search(n: int, conn: set<Cell>, points: seq<Cell>) returns (found: bool)
    requires |points| >= 1
    ensures found == Linked(n, conn, points)
  {
    var visited: set<Cell> := {};
    var queue := [points[0]];
    ghost var dequeued: set<Cell> := {};
    ReachesSelf(n, conn, points[0]);
    while |queue| > 0
      invariant visited <= conn && visited <= dequeued
      invariant forall x :: x in dequeued && x in conn ==> x in visited
      invariant forall x, y :: x in visited && Adjacent(n, x, y) ==> y in dequeued || y in queue
      invariant points[0] in dequeued || points[0] in queue
      invariant forall i :: 1 <= i < |points| ==> points[i] !in dequeued
      invariant forall y :: y in queue ==> Reaches(n, conn, points[0], y)
      invariant forall x :: x in dequeued ==> Reaches(n, conn, points[0], x)
      decreases |conn - visited|, |queue|
    {
      var cell := queue[0];
      queue := queue[1..];
      dequeued := dequeued + {cell};
      for i := 1 to |points|
        invariant forall j :: 1 <= j < i ==> points[j] != cell
      {
        if cell == points[i] {
          return true;
        }
      }
      if cell !in visited && cell in conn {
        assert conn - (visited + {cell}) == (conn - visited) - {cell};
        visited := visited + {cell};
        var next := Neighbours(n, cell);
        forall y | Adjacent(n, cell, y)
          ensures Reaches(n, conn, points[0], y)
        {
          ReachesStep(n, conn, points[0], cell, y);
        }
        queue := queue + next;
      }
    }
    forall t | Reaches(n, conn, points[0], t)
      ensures t in dequeued
    {
      ClosedHoldsReachable(n, conn, points[0], dequeued, t);
    }
    found := false;
  }
}
