/**
 * The CrossGame class of game.js: its rules engine with the canvas, the DOM events and the
 * random grid generation stripped away. Letters, dictionary and start points are given to the
 * constructor; gestures arrive as grid cells.
 */
module Game {
  import opened Geometry
  import opened Board
  import opened Words
  import opened Scanner
  import opened Connectivity

  /** getSolvedGameDifficulty's thresholds on the number of words found (game.js:378-389). */
  function SolvedDifficulty(wordsFound: nat): (level: nat)
    ensures level <= 3
  {
    if wordsFound > 1300 then 0
    else if wordsFound > 900 then 1
    else if wordsFound > 500 then 2
    else 3
  }

  /** A scan that finds more words never rates the grid harder. */
  lemma MoreWordsNoHarder(fewer: nat, more: nat)
    requires fewer <= more
    ensures SolvedDifficulty(more) <= SolvedDifficulty(fewer)
  {
  }

  /**
   * getRandomPointOnSide (game.js:78-85) with its two random draws passed in: `side` picks the
   * top, right, bottom or left edge, `offset` the position along it.
   */
  function PointOnSide(n: nat, side: nat, offset: nat): (p: Cell)
    requires side < 4 && offset < n
    ensures InBounds(n, p)
    ensures p.row == 0 || p.row == n - 1 || p.col == 0 || p.col == n - 1
  {
    if side == 0 then Cell(0, offset)
    else if side == 1 then Cell(offset, n - 1)
    else if side == 2 then Cell(n - 1, offset)
    else Cell(offset, 0)
  }

  /**
   * The test isCellInCurrentPath applies to a gesture of two or more cells (game.js:103-116):
   * is `cell` between its first and last cells? The same-row and same-column tests come first.
   */
  function OnSegment(first: Cell, last: Cell, cell: Cell): (r: bool)
    ensures cell == first ==> r
    ensures Collinear(first, last) && cell == last ==> r
  {
    if cell.row == first.row then
      (first.col <= cell.col <= last.col) || (last.col <= cell.col <= first.col)
    else if cell.col == first.col then
      (first.row <= cell.row <= last.row) || (last.row <= cell.row <= first.row)
    else if Abs(last.row - first.row) == Abs(last.col - first.col) then
      && Abs(cell.row - first.row) == Abs(cell.col - first.col)
      && Abs(cell.row - first.row) <= Abs(last.row - first.row)
      && Abs(cell.col - first.col) <= Abs(last.col - first.col)
      && Sign(last.row - first.row) == Sign(cell.row - first.row)
      && Sign(last.col - first.col) == Sign(cell.col - first.col)
    else false
  }

  /** The walk between the first two cells of every well-formed entry stays on the grid. */
  lemma EntryWalksInBounds(n: int, entries: seq<seq<Cell>>)
    requires WellFormedEntries(n, entries)
    ensures forall i, x :: 0 <= i < |entries| && x in FullPath(entries[i][0], entries[i][1]) ==> InBounds(n, x)
  {
    forall i | 0 <= i < |entries| {
      FullPathInBounds(n, entries[i][0], entries[i][1]);
    }
  }

  /** The walk between an entry's first two cells passes through both of them. */
  lemma EntryEndsOnWalks(n: int, entries: seq<seq<Cell>>)
    requires WellFormedEntries(n, entries)
    ensures forall i :: 0 <= i < |entries| ==>
      entries[i][0] in FullPath(entries[i][0], entries[i][1]) && entries[i][1] in FullPath(entries[i][0], entries[i][1])
  {
    forall i | 0 <= i < |entries| {
      FullPathShape(entries[i][0], entries[i][1]);
    }
  }

  /** Every cell of the walk between collinear endpoints is reported as on the gesture. */
  lemma WalkOnSegment(a: Cell, b: Cell)
    requires Collinear(a, b)
    ensures forall k :: 0 <= k < |FullPath(a, b)| ==> OnSegment(a, b, FullPath(a, b)[k])
  {
    StraightFullPath(a, b);
    FullPathShape(a, b);
  }

  /** Off the first cell's row and column, only cells of the walk are reported. */
  lemma OffAxesSegmentOnWalk(a: Cell, b: Cell, x: Cell)
    requires x.row != a.row && x.col != a.col
    requires OnSegment(a, b, x)
    ensures x in FullPath(a, b)
  {
    InFullPath(a, b, x, Abs(x.row - a.row));
  }

  /** Along a row or a column, the cells reported are exactly the cells of the walk. */
  lemma AxisSegmentIsWalk(a: Cell, b: Cell, x: Cell)
    requires a.row == b.row || a.col == b.col
    ensures OnSegment(a, b, x) <==> x in FullPath(a, b)
  {
    if x in FullPath(a, b) {
      WalkOnSegment(a, b);
    } else if OnSegment(a, b, x) {
      InFullPath(a, b, x, Abs(x.row - a.row) + Abs(x.col - a.col));
    }
  }

  /**
   * On a diagonal gesture the same-row test comes first, so a cell of the first cell's row that
   * the walk does not visit is still reported.
   */
  lemma DiagonalSegmentOverreaches()
    ensures OnSegment(Cell(0, 0), Cell(2, 2), Cell(0, 1))
    ensures Cell(0, 1) !in FullPath(Cell(0, 0), Cell(2, 2))
  {
    assert FullPath(Cell(0, 0), Cell(2, 2)) == [Cell(0, 0), Cell(1, 1), Cell(2, 2)];
  }

  /**
   * Reading a collinear gesture from its other end gives the letters reversed, so the
   * dictionary accepts or rejects both readings alike.
   */
  lemma ReversedGestureSameVerdict(g: seq<seq<char>>, words: set<string>, a: Cell, b: Cell)
    requires Collinear(a, b)
    ensures Letters(g, FullPath(b, a)) == Reverse(Letters(g, FullPath(a, b)))
    ensures IsValidWord(words, Letters(g, FullPath(b, a))) == IsValidWord(words, Letters(g, FullPath(a, b)))
  {
    var forth, back := FullPath(a, b), FullPath(b, a);
    CollinearFullPathReversed(a, b);
    LettersAt(g, forth);
    LettersAt(g, back);
    ReverseAt(Letters(g, forth));
    ValidWordSymmetric(words, Letters(g, forth));
  }

  class CrossGame {
    const gridSize: nat
    const grid: seq<seq<char>>
    /** Per cell, how many recorded paths had it on the walk between their first two cells; only the scanner increments it. */
    const letterCount: array2<int>
    const words: set<string>
    const startPoints: seq<Cell>
    /** Recorded paths: whole rays from the scanner, [start, end] pairs from play. */
    var foundWords: seq<seq<Cell>>
    /** The gesture in progress: nothing, its first cell, or its first and latest cells. */
    var currentPath: seq<Cell>
    /**
     * Every path addWordPath recorded, in order, including those solve has since discarded; a
     * scanned path is kept as its shared array ends up, the whole ray.
     */
    ghost var history: seq<seq<Cell>>

    ghost predicate Valid()
      reads this
    {
      GameShape(gridSize, grid, letterCount.Length0, letterCount.Length1, startPoints, foundWords, currentPath)
    }

    /** Only addWordPath changes a counter, so each one counts the recorded paths whose walk between their first two cells holds its cell. */
    ghost predicate Counted()
      reads this`history, letterCount
    {
      Counts(letterCount, gridSize, history)
    }

    /**
     * The constructor with createGrid, setStartPoints and loadWords (game.js:2-17, 34-50, 70-76):
     * the letters, the dictionary and the start points are supplied; every counter starts at 0.
     */
    constructor (gridSize: nat, grid: seq<seq<char>>, words: set<string>, startPoints: seq<Cell>)
      requires IsGrid(grid, gridSize)
      requires |startPoints| >= 1 && AllInBounds(gridSize, startPoints)
      ensures Valid() && Counted() && fresh(letterCount)
      ensures this.gridSize == gridSize && this.grid == grid
      ensures this.words == words && this.startPoints == startPoints
      ensures foundWords == [] && currentPath == []
      ensures forall r, k :: 0 <= r < gridSize && 0 <= k < gridSize ==> letterCount[r, k] == 0
    {
      this.gridSize := gridSize;
      this.grid := grid;
      this.words := words;
      this.startPoints := startPoints;
      foundWords := [];
      currentPath := [];
      history := [];
      letterCount := new int[gridSize, gridSize]((r, k) => 0);
    }

    /** isCellInFoundWords, game.js:86-91: the cell lies on the walk between some entry's first two cells. */
    function IsCellInFoundWords(cell: Cell): (r: bool)
      reads this
      requires Valid()
      ensures r ==> InBounds(gridSize, cell)
      ensures forall i :: 0 <= i < |foundWords| && (cell == foundWords[i][0] || cell == foundWords[i][1]) ==> r
    {
      EntryWalksInBounds(gridSize, foundWords);
      EntryEndsOnWalks(gridSize, foundWords);
      exists i :: 0 <= i < |foundWords| && cell in FullPath(foundWords[i][0], foundWords[i][1])
    }

    /**
     * isCellInCurrentPath, game.js:93-117. The same-row and same-column tests come first, so on
     * a diagonal gesture they also accept cells of the first cell's row and column.
     */
    function IsCellInCurrentPath(cell: Cell): (r: bool)
      reads this
      ensures |currentPath| == 0 ==> !r
      ensures |currentPath| == 1 ==> (r <==> cell == currentPath[0])
      ensures |currentPath| >= 1 && cell == currentPath[0] ==> r
      ensures |currentPath| >= 2 ==>
        var first, last := currentPath[0], currentPath[|currentPath| - 1];
        Collinear(first, last) && cell in FullPath(first, last) ==> r
    {
      if |currentPath| == 0 then false
      else if |currentPath| == 1 then currentPath[0] == cell
      else
        var first, last := currentPath[0], currentPath[|currentPath| - 1];
        if Collinear(first, last) then
          WalkOnSegment(first, last);
          OnSegment(first, last, cell)
        else
          OnSegment(first, last, cell)
    }

    /** isStartPoint, game.js:119-121: some start point has the cell's row and column. */
    function IsStartPoint(cell: Cell): (r: bool)
      reads this
      ensures r <==> exists i :: 0 <= i < |startPoints| && startPoints[i].row == cell.row && startPoints[i].col == cell.col
    {
      cell in startPoints
    }

    /** isValidStartCell, game.js:124-126: once a word is recorded, a gesture may start anywhere. */
    function IsValidStartCell(cell: Cell): (r: bool)
      reads this
      ensures |foundWords| > 0 ==> r
      ensures |foundWords| == 0 ==> (r <==> IsStartPoint(cell))
    {
      IsStartPoint(cell) || |foundWords| > 0
    }

    /**
     * isValidPath, game.js:132-145: a segment of at least two cells along a row, a column or a
     * diagonal, which touches a recorded word unless none is recorded yet.
     */
    function IsValidPath(a: Cell, b: Cell): (r: bool)
      reads this
      requires Valid()
      ensures r ==> a != b && Collinear(a, b) && |FullPath(a, b)| >= 2
      ensures |foundWords| == 0 ==> (r <==> a != b && Collinear(a, b))
      ensures |foundWords| > 0 && a != b && Collinear(a, b) ==>
        (r <==> exists k :: 0 <= k < |FullPath(a, b)| && IsCellInFoundWords(FullPath(a, b)[k]))
    {
      if a != b && Collinear(a, b) then
        if |foundWords| == 0 then true
        else exists x :: x in FullPath(a, b) && IsCellInFoundWords(x)
      else false
    }

    /** A segment is accepted or rejected alike whichever of its endpoints the gesture starts from. */
    lemma ValidPathSymmetric(a: Cell, b: Cell)
      requires Valid()
      ensures IsValidPath(a, b) == IsValidPath(b, a)
    {
      if a != b && Collinear(a, b) && |foundWords| > 0 {
        CollinearFullPathReversed(a, b);
        var forth, back := FullPath(a, b), FullPath(b, a);
        forall x | x in forth
          ensures x in back
        {
          var k :| 0 <= k < |forth| && forth[k] == x;
          assert back[|forth| - 1 - k] == x;
        }
        forall x | x in back
          ensures x in forth
        {
          var k :| 0 <= k < |back| && back[k] == x;
          assert forth[|forth| - 1 - k] == x;
        }
      }
    }

    /** isValidCurrentPath, game.js:147-155: only a gesture of exactly two cells is checked. */
    function IsValidCurrentPath(): (r: bool)
      reads this
      requires Valid()
      ensures r ==> |currentPath| == 2 && currentPath[0] != currentPath[1] && Collinear(currentPath[0], currentPath[1])
    {
      |currentPath| == 2 && IsValidPath(currentPath[0], currentPath[1])
    }

    /** getWordFromCurrentPath, game.js:184-188: the letters along the walk from the first to the last cell. */
    function WordFromCurrentPath(): (w: string)
      reads this
      requires Valid() && |currentPath| >= 1
      ensures |w| == Span(currentPath[0], currentPath[|currentPath| - 1]) + 1
      ensures w[0] == grid[currentPath[0].row][currentPath[0].col]
      ensures w[|w| - 1] == grid[currentPath[|currentPath| - 1].row][currentPath[|currentPath| - 1].col]
      ensures forall i :: 0 <= i < |w| ==>
        w[i] == LetterAt(grid, FullPath(currentPath[0], currentPath[|currentPath| - 1])[i])
    {
      var first, last := currentPath[0], currentPath[|currentPath| - 1];
      FullPathInBounds(gridSize, first, last);
      FullPathShape(first, last);
      LettersAt(grid, FullPath(first, last));
      Letters(grid, FullPath(first, last))
    }

    /** The duplicate test of onMouseUp (game.js:332): every cell of some entry is in the gesture. */
    function AlreadyFound(): (r: bool)
      reads this
      ensures r ==> |foundWords| > 0
      ensures forall i :: 0 <= i < |foundWords| && foundWords[i] == currentPath ==> r
      ensures forall i :: 0 <= i < |foundWords| && |currentPath| == 2 && foundWords[i] == [currentPath[1], currentPath[0]] ==> r
    {
      exists i :: 0 <= i < |foundWords| && forall x :: x in foundWords[i] ==> x in currentPath
    }

    /** getSolvedGameDifficulty, game.js:378-389. */
    function GetSolvedGameDifficulty(): (level: nat)
      reads this
      ensures level <= 3
    {
      SolvedDifficulty(|foundWords|)
    }

    /** What hasWon decides about the current state. */
    ghost predicate Won()
      reads this
      requires Valid()
    {
      Linked(gridSize, ConnectedCells(foundWords), startPoints)
    }

    /** With nothing recorded and every later start point distinct from the first, the game is not won. */
    lemma NotWonWithoutEntries()
      requires Valid() && |foundWords| == 0
      requires forall i :: 1 <= i < |startPoints| ==> startPoints[i] != startPoints[0]
      ensures !Won()
    {
      assert ConnectedCells(foundWords) == {};
      NothingLinkedWithoutCells(gridSize, startPoints);
    }

    /**
     * hasWon, game.js:194-232: true exactly when a later start point is reachable from the first.
     * It writes no field, so two calls in a row agree.
     */
    method HasWon() returns (won: bool)
      requires Valid()
      ensures won == Won()
    {
      var conn := CollectCells(foundWords);
      won := Search(gridSize, conn, startPoints);
    }

    /**
     * addWordPath, game.js:401-408: records the path, then increments the counter of each cell
     * on the walk between its first two cells. With fewer than two cells the entry is recorded
     * and the read of path[1] throws; that is the outcome ok == false.
     */
    method AddWordPath(path: seq<Cell>) returns (ok: bool)
      requires Valid() && AllInBounds(gridSize, path)
      requires Counted()
      modifies this`foundWords, this`history, letterCount
      ensures Counted()
      ensures foundWords == old(foundWords) + [path] && history == old(history) + [path]
      ensures ok <==> |path| >= 2
      ensures ok ==> Valid()
      ensures forall r, k {:trigger letterCount[r, k]} :: 0 <= r < gridSize && 0 <= k < gridSize ==>
        letterCount[r, k] == old(letterCount[r, k]) + CoverOne(path, Cell(r, k))
    {
      foundWords := foundWords + [path];
      if |path| < 2 {
        ok := false;
      } else {
        var cells := GetFullPath(path[0], path[1]);
        FullPathInBounds(gridSize, path[0], path[1]);
        FullPathDistinct(path[0], path[1]);
        for i := 0 to |cells|
          modifies letterCount
          invariant forall r, k :: 0 <= r < gridSize && 0 <= k < gridSize ==>
            letterCount[r, k] == old(letterCount[r, k]) + if Cell(r, k) in cells[..i] then 1 else 0
        {
          var c := cells[i];
          letterCount[c.row, c.col] := letterCount[c.row, c.col] + 1;
        }
        assert cells[..|cells|] == cells;
        ok := true;
      }
      history := history + [path];
      forall r, k | 0 <= r < gridSize && 0 <= k < gridSize
        ensures letterCount[r, k] == Coverage(history, Cell(r, k))
      {
        CoverageRecord(old(history), path, Cell(r, k));
      }
    }

    /**
     * One round of the scanning loop of findWordsFromCell, game.js:435-440: the letter at
     * (row, col) extends the word, the cell extends the path, and the path is recorded when the
     * word is accepted. `before` and `start` are what foundWords and history held when this
     * direction began. Only the first round can throw: its word is the start cell's own letter.
     */
    method ReadCell(c: Cell, d: (int, int), path: seq<Cell>, word: string, row: int, col: int,
                    ghost before: seq<seq<Cell>>, ghost start: seq<seq<Cell>>)
      returns (path': seq<Cell>, word': string, threw: bool)
      requires Valid() && InBounds(gridSize, c) && d in Directions
      requires Walked(grid, gridSize, c, d, path, word, Cell(row, col)) && InBounds(gridSize, Cell(row, col))
      requires |path| >= 1 ==> !SingleLetterWord(grid, words, c)
      requires foundWords == before + Matches(grid, words, Ray(gridSize, c, d), |path|)
      requires history == start + Matches(grid, words, Ray(gridSize, c, d), |path|)
      requires Counted()
      modifies this`foundWords, this`history, letterCount
      ensures Counted()
      ensures threw <==> path == [] && SingleLetterWord(grid, words, c)
      ensures threw ==> foundWords == old(foundWords) + [[c]] && history == start + [[c]]
      ensures !threw ==> Valid() && |path'| == |path| + 1 && !SingleLetterWord(grid, words, c)
      ensures !threw ==> Walked(grid, gridSize, c, d, path', word', Cell(row + d.0, col + d.1))
      ensures !threw ==> foundWords == before + Matches(grid, words, Ray(gridSize, c, d), |path'|)
      ensures !threw ==> history == start + Matches(grid, words, Ray(gridSize, c, d), |path'|)
    {
      WalkStep(grid, gridSize, words, c, d, path, word, row, col);
      ghost var matched := Matches(grid, words, Ray(gridSize, c, d), |path|);
      word' := word + [grid[row][col]];
      path' := path + [Cell(row, col)];
      threw := false;
      if IsValidWord(words, word') {
        var ok := AddWordPath(path');
        AppendAssociative(start, matched, [path']);
        if !ok {
          assert matched + [path'] == [[c]];
          threw := true;
          return;
        }
        assert foundWords == before + (matched + [path']);
        assert (matched + [path'])[..|matched|] == matched;
      }
    }

    /**
     * One direction of findWordsFromCell, game.js:428-444: reads cell after cell up to the edge
     * of the grid. The matches all hold the one path array, which keeps growing, so once the ray
     * is done they all read as the whole ray; the last statement gives the recorded entries that
     * value.
     */
    method FollowRay(c: Cell, d: (int, int)) returns (threw: bool)
      requires Valid() && InBounds(gridSize, c) && d in Directions
      requires Counted()
      modifies this`foundWords, this`history, letterCount
      ensures Counted()
      ensures threw <==> SingleLetterWord(grid, words, c)
      ensures threw ==> foundWords == old(foundWords) + [[c]] && history == old(history) + [[c]]
      ensures !threw ==> Valid() && foundWords == old(foundWords) + RayEntries(grid, gridSize, words, c, d)
      ensures !threw ==> history == old(history) + RayEntries(grid, gridSize, words, c, d)
    {
      ghost var ray := Ray(gridSize, c, d);
      ghost var base, start := foundWords, history;
      var dx, dy := d.0, d.1;
      var row, col := c.row, c.col;
      var word: string := [];
      var path: seq<Cell> := [];
      var mark := |foundWords|;
      while 0 <= row < gridSize && 0 <= col < gridSize
        invariant Walked(grid, gridSize, c, d, path, word, Cell(row, col))
        invariant |path| >= 1 ==> !SingleLetterWord(grid, words, c)
        invariant Valid() && Counted()
        invariant foundWords == base + Matches(grid, words, ray, |path|)
        invariant history == start + Matches(grid, words, ray, |path|)
        decreases |ray| - |path|
      {
        var threwHere;
        path, word, threwHere := ReadCell(c, d, path, word, row, col, base, start);
        if threwHere {
          return true;
        }
        row, col := row + dx, col + dy;
      }
      WalkEnd(grid, gridSize, c, d, path, word, Cell(row, col));
      RayEntriesWellFormed(grid, gridSize, words, c, d);
      assert |Matches(grid, words, ray, |ray|)| == MatchCount(grid, words, ray, |ray|);
      ShareFinalPath(mark, path);
      assert foundWords == base + RayEntries(grid, gridSize, words, c, d);
      ghost var recorded := history;
      history := start + RayEntries(grid, gridSize, words, c, d);
      forall r, k | 0 <= r < gridSize && 0 <= k < gridSize
        ensures letterCount[r, k] == Coverage(history, Cell(r, k))
      {
        assert letterCount[r, k] == Coverage(recorded, Cell(r, k));
        RecordedRayCoverage(grid, gridSize, words, c, d, start, Cell(r, k));
      }
      threw := false;
    }

    /**
     * The aliasing of findWordsFromCell: every entry recorded since `mark` is the one path array,
     * so they all end up holding its final contents.
     */
    method ShareFinalPath(mark: nat, path: seq<Cell>)
      requires Valid() && mark <= |foundWords|
      requires WellFormedEntries(gridSize, Copies(path, |foundWords| - mark))
      modifies this`foundWords
      ensures Valid()
      ensures foundWords == old(foundWords[..mark]) + Copies(path, |old(foundWords)| - mark)
    {
      WellFormedAppend(gridSize, foundWords[..mark], Copies(path, |foundWords| - mark));
      foundWords := foundWords[..mark] + Copies(path, |foundWords| - mark);
    }

    /** findWordsFromCell, game.js:426-446: the eight directions from c, in order. */
    method FindWordsFromCell(c: Cell) returns (threw: bool)
      requires Valid() && InBounds(gridSize, c)
      requires Counted()
      modifies this`foundWords, this`history, letterCount
      ensures Counted()
      ensures threw <==> SingleLetterWord(grid, words, c)
      ensures threw ==> foundWords == old(foundWords) + [[c]] && history == old(history) + [[c]]
      ensures !threw ==> Valid() && foundWords == old(foundWords) + CellEntries(grid, gridSize, words, c)
      ensures !threw ==> history == old(history) + CellEntries(grid, gridSize, words, c)
    {
      ghost var base, start := foundWords, history;
      threw := false;
      for i := 0 to |Directions|
        invariant Valid() && Counted()
        invariant i > 0 ==> !SingleLetterWord(grid, words, c)
        invariant foundWords == base + DirEntries(grid, gridSize, words, c, i)
        invariant history == start + DirEntries(grid, gridSize, words, c, i)
      {
        threw := NextDirection(c, i, base, start);
        if threw {
          return;
        }
      }
    }

    /**
     * One round of findWordsFromCell's outer loop, game.js:427-444: the direction Directions[i] from c,
     * after the first i. `base` and `start` are what foundWords and history held before the first.
     */
    method NextDirection(c: Cell, i: nat, ghost base: seq<seq<Cell>>, ghost start: seq<seq<Cell>>) returns (threw: bool)
      requires Valid() && InBounds(gridSize, c) && i < |Directions|
      requires i > 0 ==> !SingleLetterWord(grid, words, c)
      requires foundWords == base + DirEntries(grid, gridSize, words, c, i)
      requires history == start + DirEntries(grid, gridSize, words, c, i)
      requires Counted()
      modifies this`foundWords, this`history, letterCount
      ensures Counted()
      ensures threw <==> SingleLetterWord(grid, words, c)
      ensures threw ==> foundWords == base + [[c]] && history == start + [[c]]
      ensures !threw ==> Valid() && foundWords == base + DirEntries(grid, gridSize, words, c, i + 1)
      ensures !threw ==> history == start + DirEntries(grid, gridSize, words, c, i + 1)
    {
      ghost var before := DirEntries(grid, gridSize, words, c, i);
      ghost var added := RayEntries(grid, gridSize, words, c, Directions[i]);
      threw := FollowRay(c, Directions[i]);
      if threw {
        assert i == 0 && before == [];
        assert before + [[c]] == [[c]];
        return;
      }
      assert DirEntries(grid, gridSize, words, c, i + 1) == before + added;
      AppendAssociative(base, before, added);
      AppendAssociative(start, before, added);
    }

    /**
     * solve, game.js:410-424: empties foundWords, then scans every cell in row-major order. It
     * completes exactly when no single letter of the grid is a word; otherwise it stops at the
     * first such cell, leaving the one-cell entry addWordPath recorded before throwing. The
     * counters are never reset: each grows by the increments of the entries recorded.
     */
    method Solve() returns (outcome: ScanOutcome)
      requires Valid()
      requires Counted()
      modifies this`foundWords, this`history, letterCount
      ensures Counted()
      ensures ScanOf(grid, gridSize, words, outcome) && foundWords == ScanEntries(grid, gridSize, words, outcome)
      ensures outcome.Completed? <==> NoSingleLetterWords(grid, gridSize, words)
      ensures outcome.Completed? ==> Valid()
      ensures history == old(history) + foundWords
      ensures forall r, k {:trigger letterCount[r, k]} :: 0 <= r < gridSize && 0 <= k < gridSize ==>
        letterCount[r, k] == old(letterCount[r, k]) + Coverage(foundWords, Cell(r, k))
    {
      ghost var start := history;
      foundWords := [];
      outcome := ScanGrid(start);
      ScanOfCompletes(grid, gridSize, words, outcome);
      CountsAppended(letterCount, gridSize, start, foundWords);
    }

    /** solve's two loops, game.js:418-422, from an empty foundWords; `start` is what history held then. */
    method ScanGrid(ghost start: seq<seq<Cell>>) returns (outcome: ScanOutcome)
      requires Valid() && foundWords == [] && history == start
      requires Counted()
      modifies this`foundWords, this`history, letterCount
      ensures Counted()
      ensures ScanOf(grid, gridSize, words, outcome) && foundWords == ScanEntries(grid, gridSize, words, outcome)
      ensures outcome.Completed? ==> Valid()
      ensures history == start + foundWords
    {
      outcome := Completed;
      for row := 0 to gridSize
        invariant outcome.Completed? && Valid() && Counted()
        invariant foundWords == GridEntries(CellTable(grid, gridSize, words), row)
        invariant NoSingleBefore(grid, gridSize, words, Cell(row, 0))
        invariant history == start + foundWords
      {
        outcome := NextRow(row, start);
        if outcome.Threw? {
          return;
        }
      }
      assert NoSingleLetterWords(grid, gridSize, words);
    }

    /**
     * One round of solve's outer loop, game.js:418-422: row `row`, after the rows above it.
     * `start` is what history held before the scan.
     */
    method NextRow(row: nat, ghost start: seq<seq<Cell>>) returns (outcome: ScanOutcome)
      requires Valid() && row < gridSize
      requires foundWords == GridEntries(CellTable(grid, gridSize, words), row)
      requires NoSingleBefore(grid, gridSize, words, Cell(row, 0))
      requires history == start + foundWords
      requires Counted()
      modifies this`foundWords, this`history, letterCount
      ensures Counted()
      ensures history == start + foundWords
      ensures outcome.Completed? ==>
        && Valid()
        && foundWords == GridEntries(CellTable(grid, gridSize, words), row + 1)
        && NoSingleBefore(grid, gridSize, words, Cell(row + 1, 0))
      ensures outcome.Threw? ==>
        ScanOf(grid, gridSize, words, outcome) && foundWords == ScanEntries(grid, gridSize, words, outcome)
    {
      ghost var done := foundWords;
      outcome := ScanRow(row);
      ghost var added := RowScanEntries(grid, gridSize, words, row, outcome);
      AppendAssociative(start, done, added);
      if outcome.Threw? {
        ghost var at := outcome.at;
        AppendAssociative(done, RowEntries(CellTable(grid, gridSize, words), row, at.col), [[at]]);
        forall r, k | 0 <= r < gridSize && 0 <= k < gridSize && Before(r, k, at)
          ensures !SingleLetterWord(grid, words, Cell(r, k))
        {
        }
        return;
      }
      assert GridEntries(CellTable(grid, gridSize, words), row + 1) == done + added;
      forall r, k | 0 <= r < gridSize && 0 <= k < gridSize && Before(r, k, Cell(row + 1, 0))
        ensures !SingleLetterWord(grid, words, Cell(r, k))
      {
        if r == row {
          assert !SingleLetterWord(grid, words, Cell(row, k));
        }
      }
    }

    /** One row of solve's scan, game.js:419-421: the cells (row, 0) .. (row, gridSize - 1) in order. */
    method ScanRow(row: nat) returns (outcome: ScanOutcome)
      requires Valid() && row < gridSize
      requires Counted()
      modifies this`foundWords, this`history, letterCount
      ensures Counted()
      ensures RowScanOf(grid, gridSize, words, row, outcome)
      ensures foundWords == old(foundWords) + RowScanEntries(grid, gridSize, words, row, outcome)
      ensures history == old(history) + RowScanEntries(grid, gridSize, words, row, outcome)
      ensures outcome.Completed? ==> Valid()
    {
      ghost var base, start := foundWords, history;
      outcome := Completed;
      for col := 0 to gridSize
        invariant Valid() && Counted()
        invariant RowScanned(grid, gridSize, words, row, col, base, foundWords)
        invariant RowScanned(grid, gridSize, words, row, col, start, history)
      {
        var threw := NextCell(row, col, base, start);
        if threw {
          outcome := Threw(Cell(row, col));
          break;
        }
      }
    }

    /**
     * One round of solve's inner loop, game.js:420: the cell (row, col), after the cells
     * before it in its row. `base` and `start` are what foundWords and history held before
     * the row.
     */
    method NextCell(row: nat, col: nat, ghost base: seq<seq<Cell>>, ghost start: seq<seq<Cell>>) returns (threw: bool)
      requires Valid() && Counted() && col < gridSize
      requires RowScanned(grid, gridSize, words, row, col, base, foundWords)
      requires RowScanned(grid, gridSize, words, row, col, start, history)
      modifies this`foundWords, this`history, letterCount
      ensures Counted()
      ensures threw <==> SingleLetterWord(grid, words, Cell(row, col))
      ensures threw ==>
        && foundWords == base + (RowEntries(CellTable(grid, gridSize, words), row, col) + [[Cell(row, col)]])
        && history == start + (RowEntries(CellTable(grid, gridSize, words), row, col) + [[Cell(row, col)]])
      ensures !threw ==>
        && Valid()
        && RowScanned(grid, gridSize, words, row, col + 1, base, foundWords)
        && RowScanned(grid, gridSize, words, row, col + 1, start, history)
    {
      ghost var inRow := RowEntries(CellTable(grid, gridSize, words), row, col);
      ghost var added := CellEntries(grid, gridSize, words, Cell(row, col));
      CellTableAt(grid, gridSize, words, Cell(row, col));
      threw := FindWordsFromCell(Cell(row, col));
      if threw {
        AppendAssociative(base, inRow, [[Cell(row, col)]]);
        AppendAssociative(start, inRow, [[Cell(row, col)]]);
        return;
      }
      assert RowEntries(CellTable(grid, gridSize, words), row, col + 1) == inRow + added;
      AppendAssociative(base, inRow, added);
      AppendAssociative(start, inRow, added);
      forall k | 0 <= k < col + 1
        ensures !SingleLetterWord(grid, words, Cell(row, k))
      {
      }
    }

    /** onMouseDown, game.js:304-310: a gesture starts only on a valid start cell. */
    method OnMouseDown(cell: Cell)
      requires Valid() && InBounds(gridSize, cell)
      modifies this`currentPath
      ensures Valid()
      ensures currentPath == if IsValidStartCell(cell) then [cell] else old(currentPath)
    {
      if IsValidStartCell(cell) {
        currentPath := [cell];
      }
    }

    /**
     * onMouseMove, game.js:312-324: the gesture keeps its first cell, and the cell under the
     * pointer replaces its second one unless it is the first cell again.
     */
    method OnMouseMove(cell: Cell)
      requires Valid() && InBounds(gridSize, cell)
      modifies this`currentPath
      ensures Valid()
      ensures old(currentPath) == [] || cell == old(currentPath)[0] ==> currentPath == old(currentPath)
      ensures old(currentPath) != [] && cell != old(currentPath)[0] ==> currentPath == [old(currentPath)[0], cell]
    {
      if |currentPath| > 0 {
        var first := currentPath[0];
        if first == cell {
          return;
        }
        if |currentPath| > 1 {
          currentPath := currentPath[..|currentPath| - 1];
        }
        currentPath := currentPath + [cell];
      }
    }

    /** onMouseLeave, game.js:299-302: the gesture is dropped. */
    method OnMouseLeave()
      requires Valid()
      modifies this`currentPath
      ensures Valid() && currentPath == []
    {
      currentPath := [];
    }

    /**
     * onMouseUp, game.js:326-353, without rendering, the alert and the rebuild after a win. A
     * gesture of two cells is recorded when its segment is valid, its letters spell a word in
     * either direction, and no recorded entry lies inside it; `won` is hasWon's answer after
     * recording, which the game would act on.
     */
    method OnMouseUp() returns (won: bool)
      requires Valid()
      modifies this`foundWords, this`currentPath
      ensures Valid()
      ensures |old(currentPath)| <= 1 ==> currentPath == old(currentPath) && foundWords == old(foundWords)
      ensures |old(currentPath)| > 1 ==> currentPath == []
      ensures foundWords == old(foundWords) || foundWords == old(foundWords) + [old(currentPath)]
      ensures foundWords != old(foundWords) <==>
        && |old(currentPath)| > 1
        && old(IsValidCurrentPath())
        && IsValidWord(words, old(WordFromCurrentPath()))
        && !old(AlreadyFound())
      ensures |old(currentPath)| == 2 &&
        (exists i :: 0 <= i < |old(foundWords)| &&
          (old(foundWords)[i] == old(currentPath) || old(foundWords)[i] == [old(currentPath)[1], old(currentPath)[0]]))
        ==> foundWords == old(foundWords)
      ensures won <==> foundWords != old(foundWords) && Won()
    {
      won := false;
      if |currentPath| > 1 {
        var word := WordFromCurrentPath();
        if IsValidCurrentPath() && IsValidWord(words, word) {
          if AlreadyFound() {
            currentPath := [];
            return;
          }
          foundWords := foundWords + [currentPath];
          won := HasWon();
        }
        currentPath := [];
      }
    }
  }

  /**
   * The same gesture played twice is recorded at most once: the second time either it is
   * rejected for the reasons it was the first time, or the recorded pair lies inside it.
   */
  method ReplayedGestureRecordedOnce(game: CrossGame, a: Cell, b: Cell)
    requires game.Valid() && game.currentPath == []
    requires InBounds(game.gridSize, a) && InBounds(game.gridSize, b)
    modifies game`foundWords, game`currentPath
    ensures game.Valid()
    ensures |game.foundWords| <= |old(game.foundWords)| + 1
  {
    ghost var before := game.foundWords;
    game.OnMouseDown(a);
    game.OnMouseMove(b);
    ghost var gesture := game.currentPath;
    var won := game.OnMouseUp();
    ghost var once := game.foundWords;
    ghost var left := game.currentPath;
    game.OnMouseDown(a);
    ghost var down := game.currentPath;
    game.OnMouseMove(b);
    if once != before {
      assert once == before + [[a, b]] && down == [a];
      assert once[|before|] == game.currentPath;
    } else {
      assert down == left || down == [a];
      assert game.currentPath == gesture;
    }
    won := game.OnMouseUp();
  }
}
