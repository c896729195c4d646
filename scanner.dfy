/**
 * What solve, findWordsFromCell and addWordPath (game.js:401-446) record, stated as values.
 * The methods that do the recording, in place, are CrossGame.Solve, CrossGame.FindWordsFromCell,
 * CrossGame.FollowRay and CrossGame.AddWordPath.
 */
module Scanner {
  import opened Geometry
  import opened Words
  import opened Board

  /** The eight steps (row delta, column delta) in the order solve lists them. */
  const Directions: seq<(int, int)> :=
    [(-1, -1), (-1, 0), (-1, 1), (0, -1), (0, 1), (1, -1), (1, 0), (1, 1)]

  /** The letter at x; a cell off the grid, which the game never reads, gives a blank. */
  function LetterAt(g: seq<seq<char>>, x: Cell): char {
    if 0 <= x.row < |g| && 0 <= x.col < |g[x.row]| then g[x.row][x.col] else ' '
  }

  /** The letters read along a list of cells. */
  function Letters(g: seq<seq<char>>, cells: seq<Cell>): (s: string)
    ensures |s| == |cells|
    decreases |cells|
  {
    if cells == [] then []
    else Letters(g, cells[..|cells| - 1]) + [LetterAt(g, cells[|cells| - 1])]
  }

  /** The i-th letter read is the letter under the i-th cell. */
  lemma {:induction false} LettersAt(g: seq<seq<char>>, cells: seq<Cell>)
    ensures forall i :: 0 <= i < |cells| ==> Letters(g, cells)[i] == LetterAt(g, cells[i])
    decreases |cells|
  {
    if cells != [] {
      LettersAt(g, cells[..|cells| - 1]);
    }
  }

  /** How many cells a ray from coordinate x moving by s visits before leaving 0 .. n-1. */
  function Room(n: int, x: int, s: int): int {
    if s == 1 then n - x else if s == -1 then x + 1 else n
  }

  function RayLength(n: int, c: Cell, d: (int, int)): nat
    requires InBounds(n, c)
  {
    Min(Room(n, c.row, d.0), Room(n, c.col, d.1))
  }

  /** The cells from c, stepping by d, up to the edge of the grid. */
  function Ray(n: int, c: Cell, d: (int, int)): (ray: seq<Cell>)
    requires InBounds(n, c)
    ensures |ray| >= 1 && ray[0] == c && AllInBounds(n, ray)
  {
    seq(RayLength(n, c, d), (k: int) requires 0 <= k => Move(c, d.0, d.1, k))
  }

  /** The scanning loop stays on the grid and stops exactly at its edge. */
  lemma RayShape(n: int, c: Cell, d: (int, int))
    requires InBounds(n, c) && d in Directions
    ensures !InBounds(n, Move(c, d.0, d.1, |Ray(n, c, d)|))
  {
  }

  /**
   * Every prefix of a ray is the walk getFullPath draws between the prefix's two ends, so a scanned
   * entry is a straight path in the game's own sense.
   */
  lemma RayIsStraight(n: int, c: Cell, d: (int, int), k: nat)
    requires InBounds(n, c) && d in Directions && k < |Ray(n, c, d)|
    ensures FullPath(c, Ray(n, c, d)[k]) == Ray(n, c, d)[..k + 1]
  {
    var ray := Ray(n, c, d);
    var b := ray[k];
    assert Collinear(c, b) && Span(c, b) == k;
    StraightFullPath(c, b);
    if k > 0 {
      assert Sign(b.row - c.row) == d.0 && Sign(b.col - c.col) == d.1;
    }
  }

  /** True when the first k cells of the ray spell a word the dictionary accepts. */
  predicate ValidPrefix(g: seq<seq<char>>, words: set<string>, ray: seq<Cell>, k: int) {
    1 <= k <= |ray| && IsValidWord(words, Letters(g, ray[..k]))
  }

  /** The number of prefix lengths 1 .. m of the ray that spell a word. */
  function MatchCount(g: seq<seq<char>>, words: set<string>, ray: seq<Cell>, m: nat): nat {
    if m == 0 then 0
    else MatchCount(g, words, ray, m - 1) + if ValidPrefix(g, words, ray, m) then 1 else 0
  }

  /**
   * The prefixes ray[..k], 1 <= k <= m, that spell a word, in increasing k: the path addWordPath
   * is handed at each match, read at the moment of the call.
   */
  function Matches(g: seq<seq<char>>, words: set<string>, ray: seq<Cell>, m: nat): (s: seq<seq<Cell>>)
    ensures |s| == MatchCount(g, words, ray, m)
  {
    if m == 0 then []
    else Matches(g, words, ray, m - 1) + if ValidPrefix(g, words, ray, m) then [ray[..m]] else []
  }

  /**
   * The state of the scanning loop of findWordsFromCell (game.js:432-443) after reading `path`
   * from c in direction d: path is a prefix of the ray, `at` is the next cell to read, and `word`
   * holds the letters read so far.
   */
  ghost predicate Walked(g: seq<seq<char>>, n: nat, c: Cell, d: (int, int), path: seq<Cell>, word: string, at: Cell)
    requires InBounds(n, c)
  {
    var ray := Ray(n, c, d);
    && |path| <= |ray| && path == ray[..|path|]
    && at == Move(c, d.0, d.1, |path|)
    && AllInBounds(n, path) && word == Letters(g, path)
  }

  /**
   * One round of the scanning loop while `at` is on the grid: the read goes on along the ray, and
   * the matches grow by the new path exactly when the new word is accepted. The first round's word
   * is the start cell's own letter.
   */
  lemma WalkStep(g: seq<seq<char>>, n: nat, words: set<string>, c: Cell, d: (int, int), path: seq<Cell>, word: string, row: int, col: int)
    requires IsGrid(g, n) && InBounds(n, c) && d in Directions
    requires Walked(g, n, c, d, path, word, Cell(row, col)) && InBounds(n, Cell(row, col))
    ensures |path| < |Ray(n, c, d)|
    ensures Walked(g, n, c, d, path + [Cell(row, col)], word + [g[row][col]], Cell(row + d.0, col + d.1))
    ensures IsValidWord(words, word + [g[row][col]]) ==>
      Matches(g, words, Ray(n, c, d), |path| + 1) == Matches(g, words, Ray(n, c, d), |path|) + [path + [Cell(row, col)]]
    ensures !IsValidWord(words, word + [g[row][col]]) ==>
      Matches(g, words, Ray(n, c, d), |path| + 1) == Matches(g, words, Ray(n, c, d), |path|)
    ensures path == [] ==>
      (path + [Cell(row, col)] == [c] && (IsValidWord(words, word + [g[row][col]]) <==> SingleLetterWord(g, words, c)))
  {
    var ray := Ray(n, c, d);
    var at := Cell(row, col);
    RayShape(n, c, d);
    assert |path| < |ray|;
    assert ray[|path|] == at;
    var next := path + [at];
    assert next == ray[..|path| + 1];
    assert next[..|path|] == path;
    assert Letters(g, next) == word + [g[at.row][at.col]];
    if path == [] {
      assert word == [] && at == c;
      assert word + [g[at.row][at.col]] == [g[c.row][c.col]];
    }
  }

  /** When the loop stops, the path read is the whole ray. */
  lemma WalkEnd(g: seq<seq<char>>, n: nat, c: Cell, d: (int, int), path: seq<Cell>, word: string, at: Cell)
    requires IsGrid(g, n) && InBounds(n, c) && d in Directions
    requires Walked(g, n, c, d, path, word, at) && !InBounds(n, at)
    ensures path == Ray(n, c, d)
  {
    RayShape(n, c, d);
  }

  /** When the start cell's letter is not a word, what a direction records is well formed. */
  lemma RayEntriesWellFormed(g: seq<seq<char>>, n: nat, words: set<string>, c: Cell, d: (int, int))
    requires IsGrid(g, n) && InBounds(n, c) && d in Directions
    requires !SingleLetterWord(g, words, c)
    ensures WellFormedEntries(n, RayEntries(g, n, words, c, d))
  {
    var ray := Ray(n, c, d);
    var m := MatchCount(g, words, ray, |ray|);
    if m > 0 {
      var k := MatchCountWitness(g, words, ray, |ray|);
      assert ray[..1] == [c];
      assert Letters(g, [c]) == [g[c.row][c.col]];
      assert k >= 2;
    }
  }

  /** e is a well-formed entry of the ray: two or more cells on the grid, starting with the ray's first two. */
  predicate HeadedBy(n: int, e: seq<Cell>, ray: seq<Cell>) {
    |e| >= 2 && |ray| >= 2 && e[..2] == ray[..2] && AllInBounds(n, e)
  }

  /**
   * When the first letter alone is not a word, every match has two or more cells, all on the grid,
   * and begins with the ray's first two cells.
   */
  lemma {:induction false} MatchesHeads(g: seq<seq<char>>, n: nat, words: set<string>, ray: seq<Cell>, m: nat)
    requires IsGrid(g, n) && AllInBounds(n, ray) && m <= |ray|
    requires !ValidPrefix(g, words, ray, 1)
    ensures forall e :: e in Matches(g, words, ray, m) ==> HeadedBy(n, e, ray)
    decreases m
  {
    if m > 0 {
      MatchesHeads(g, n, words, ray, m - 1);
      if ValidPrefix(g, words, ray, m) {
        assert m >= 2 && ray[..m][..2] == ray[..2];
        assert HeadedBy(n, ray[..m], ray);
      }
    }
  }

  /** The matches cause the increments of as many copies of the whole ray: addWordPath reads only the first two cells. */
  lemma MatchesCoverage(g: seq<seq<char>>, n: nat, words: set<string>, ray: seq<Cell>, m: nat, x: Cell)
    requires IsGrid(g, n) && AllInBounds(n, ray) && m <= |ray|
    requires !ValidPrefix(g, words, ray, 1)
    ensures Coverage(Matches(g, words, ray, m), x) == Coverage(Copies(ray, MatchCount(g, words, ray, m)), x)
  {
    var s := Matches(g, words, ray, m);
    MatchesHeads(g, n, words, ray, m);
    forall i | 0 <= i < |s|
      ensures |s[i]| >= 2 && |ray| >= 2 && s[i][..2] == ray[..2]
    {
      assert HeadedBy(n, s[i], ray);
    }
    CoverageSameHeads(s, Copies(ray, |s|), x);
  }

  /** The cells the matches of a whole ray cover are the cells the recorded entries cover. */
  lemma RayMatchesCoverage(g: seq<seq<char>>, n: nat, words: set<string>, c: Cell, d: (int, int), x: Cell)
    requires IsGrid(g, n) && InBounds(n, c) && d in Directions
    requires !SingleLetterWord(g, words, c)
    ensures Coverage(Matches(g, words, Ray(n, c, d), |Ray(n, c, d)|), x)
         == Coverage(RayEntries(g, n, words, c, d), x)
  {
    var ray := Ray(n, c, d);
    assert ray[..1] == [c];
    assert Letters(g, [c]) == [g[c.row][c.col]];
    MatchesCoverage(g, n, words, ray, |ray|, x);
  }

  /**
   * Recording the whole ray in place of each match leaves every counter as it was: addWordPath
   * reads only an entry's first two cells, and they agree.
   */
  lemma RecordedRayCoverage(g: seq<seq<char>>, n: nat, words: set<string>, c: Cell, d: (int, int),
                            start: seq<seq<Cell>>, x: Cell)
    requires IsGrid(g, n) && InBounds(n, c) && d in Directions
    requires !SingleLetterWord(g, words, c)
    ensures Coverage(start + Matches(g, words, Ray(n, c, d), |Ray(n, c, d)|), x)
         == Coverage(start + RayEntries(g, n, words, c, d), x)
  {
    var ray := Ray(n, c, d);
    CoverageAppend(start, Matches(g, words, ray, |ray|), x);
    CoverageAppend(start, RayEntries(g, n, words, c, d), x);
    RayMatchesCoverage(g, n, words, c, d, x);
  }

  /** m copies of one entry. */
  function Copies(e: seq<Cell>, m: nat): (s: seq<seq<Cell>>)
    ensures |s| == m
    ensures forall i :: 0 <= i < m ==> s[i] == e
  {
    if m == 0 then [] else Copies(e, m - 1) + [e]
  }

  /**
   * What one (cell, direction) pair adds: all its matches share the one path array, which goes on
   * growing to the edge of the grid, so each match is recorded as the whole ray.
   */
  function RayEntries(g: seq<seq<char>>, n: nat, words: set<string>, c: Cell, d: (int, int)): seq<seq<Cell>>
    requires InBounds(n, c)
  {
    var ray := Ray(n, c, d);
    Copies(ray, MatchCount(g, words, ray, |ray|))
  }

  /** What the first i directions from c add, in order. */
  function DirEntries(g: seq<seq<char>>, n: nat, words: set<string>, c: Cell, i: nat): seq<seq<Cell>>
    requires InBounds(n, c) && i <= |Directions|
  {
    if i == 0 then [] else DirEntries(g, n, words, c, i - 1) + RayEntries(g, n, words, c, Directions[i - 1])
  }

  /** What findWordsFromCell adds for the cell c. */
  function CellEntries(g: seq<seq<char>>, n: nat, words: set<string>, c: Cell): seq<seq<Cell>>
    requires InBounds(n, c)
  {
    DirEntries(g, n, words, c, |Directions|)
  }

  /** What findWordsFromCell adds for each cell of the grid, indexed by row and then column. */
  type EntryTable = seq<seq<seq<seq<Cell>>>>

  function CellTable(g: seq<seq<char>>, n: nat, words: set<string>): (t: EntryTable)
    ensures |t| == n
    ensures forall r :: 0 <= r < n ==> |t[r]| == n
  {
    seq(n, (r: int) requires 0 <= r < n =>
      seq(n, (k: int) requires 0 <= k < n => CellEntries(g, n, words, Cell(r, k))))
  }

  lemma CellTableAt(g: seq<seq<char>>, n: nat, words: set<string>, c: Cell)
    requires InBounds(n, c)
    ensures CellTable(g, n, words)[c.row][c.col] == CellEntries(g, n, words, c)
  {
  }

  /** What the cells (r, 0) .. (r, k-1) of the table add, in order. */
  function RowEntries(t: EntryTable, r: nat, k: nat): seq<seq<Cell>>
    requires r < |t| && k <= |t[r]|
  {
    if k == 0 then [] else RowEntries(t, r, k - 1) + t[r][k - 1]
  }

  /** What rows 0 .. r-1 of the table add, in order; GridEntries(t, |t|) is a complete scan. */
  function GridEntries(t: EntryTable, r: nat): seq<seq<Cell>>
    requires r <= |t|
  {
    if r == 0 then [] else GridEntries(t, r - 1) + RowEntries(t, r - 1, |t[r - 1]|)
  }

  /** The single letter at c is itself a word: the match on which addWordPath throws. */
  predicate SingleLetterWord(g: seq<seq<char>>, words: set<string>, c: Cell) {
    IsValidWord(words, [LetterAt(g, c)])
  }

  predicate NoSingleLetterWords(g: seq<seq<char>>, n: nat, words: set<string>) {
    forall r, k :: 0 <= r < n && 0 <= k < n ==> !SingleLetterWord(g, words, Cell(r, k))
  }

  /** One cell whose letter is a word is enough to break NoSingleLetterWords. */
  lemma SingleLetterWitness(g: seq<seq<char>>, n: nat, words: set<string>, c: Cell)
    requires InBounds(n, c) && SingleLetterWord(g, words, c)
    ensures !NoSingleLetterWords(g, n, words)
  {
    assert Cell(c.row, c.col) == c;
  }

  /** Cell (r, k) comes before cell at in the row-major order solve visits. */
  predicate Before(r: int, k: int, at: Cell) {
    r < at.row || (r == at.row && k < at.col)
  }

  /** How solve ends: it runs to completion, or addWordPath throws on a one-letter match at `at`. */
  datatype ScanOutcome = Completed | Threw(at: Cell)

  /** No cell before `at`, in the order solve visits them, holds a one-letter word. */
  predicate NoSingleBefore(g: seq<seq<char>>, n: nat, words: set<string>, at: Cell) {
    forall r, k :: 0 <= r < n && 0 <= k < n && Before(r, k, at) ==> !SingleLetterWord(g, words, Cell(r, k))
  }

  /** The outcome solve reaches on a grid: completion, or a throw at the first one-letter word. */
  predicate ScanOf(g: seq<seq<char>>, n: nat, words: set<string>, outcome: ScanOutcome) {
    match outcome
    case Completed => NoSingleLetterWords(g, n, words)
    case Threw(at) => InBounds(n, at) && SingleLetterWord(g, words, at) && NoSingleBefore(g, n, words, at)
  }

  /**
   * What foundWords holds when solve ends with `outcome`: the entries of every cell it scanned, and
   * after a throw the one-cell entry addWordPath recorded before reading its second cell.
   */
  function ScanEntries(g: seq<seq<char>>, n: nat, words: set<string>, outcome: ScanOutcome): seq<seq<Cell>>
    requires outcome.Threw? ==> InBounds(n, outcome.at)
  {
    var t := CellTable(g, n, words);
    match outcome
    case Completed => GridEntries(t, n)
    case Threw(at) => GridEntries(t, at.row) + RowEntries(t, at.row, at.col) + [[at]]
  }

  /** solve completes exactly when no single letter of the grid is a word. */
  lemma ScanOfCompletes(g: seq<seq<char>>, n: nat, words: set<string>, outcome: ScanOutcome)
    requires ScanOf(g, n, words, outcome)
    ensures outcome.Completed? <==> NoSingleLetterWords(g, n, words)
  {
    if outcome.Threw? {
      SingleLetterWitness(g, n, words, outcome.at);
    }
  }

  /** The grid alone decides how solve ends: at most one outcome satisfies ScanOf. */
  lemma ScanOfUnique(g: seq<seq<char>>, n: nat, words: set<string>, o1: ScanOutcome, o2: ScanOutcome)
    requires ScanOf(g, n, words, o1) && ScanOf(g, n, words, o2)
    ensures o1 == o2
  {
    ScanOfCompletes(g, n, words, o1);
    ScanOfCompletes(g, n, words, o2);
    if o1.Threw? && o2.Threw? {
      var a, b := o1.at, o2.at;
      assert !Before(a.row, a.col, b) && !Before(b.row, b.col, a);
    }
  }

  /**
   * Solve's inner loop has visited cells (row, 0) .. (row, col - 1) without a throw, and `after`
   * is `before` followed by the entries those cells recorded.
   */
  predicate RowScanned(g: seq<seq<char>>, n: nat, words: set<string>, row: nat, col: nat,
                       before: seq<seq<Cell>>, after: seq<seq<Cell>>)
  {
    && row < n && col <= n
    && after == before + RowEntries(CellTable(g, n, words), row, col)
    && forall k :: 0 <= k < col ==> !SingleLetterWord(g, words, Cell(row, k))
  }

  /** The outcome of solve's inner loop on row `row`: the whole row, or a throw at its first one-letter word. */
  predicate RowScanOf(g: seq<seq<char>>, n: nat, words: set<string>, row: int, outcome: ScanOutcome) {
    match outcome
    case Completed => forall k :: 0 <= k < n ==> !SingleLetterWord(g, words, Cell(row, k))
    case Threw(at) =>
      && at.row == row && 0 <= at.col < n && SingleLetterWord(g, words, at)
      && forall k :: 0 <= k < at.col ==> !SingleLetterWord(g, words, Cell(row, k))
  }

  /** What solve's inner loop on row `row` adds to foundWords when it ends with `outcome`. */
  function RowScanEntries(g: seq<seq<char>>, n: nat, words: set<string>, row: nat, outcome: ScanOutcome): seq<seq<Cell>>
    requires row < n && (outcome.Threw? ==> 0 <= outcome.at.col < n)
  {
    var t := CellTable(g, n, words);
    match outcome
    case Completed => RowEntries(t, row, n)
    case Threw(at) => RowEntries(t, row, at.col) + [[at]]
  }

  /** m copies of a ray of two or more cells increment its first two cells m times each, and nothing else. */
  lemma {:induction false} CoverageCopies(ray: seq<Cell>, m: nat, x: Cell)
    requires |ray| >= 2 && FullPath(ray[0], ray[1]) == ray[..2]
    ensures Coverage(Copies(ray, m), x) == if x == ray[0] || x == ray[1] then m else 0
    decreases m
  {
    if m > 0 {
      CoverageCopies(ray, m - 1, x);
      assert Copies(ray, m)[..m - 1] == Copies(ray, m - 1);
      assert x in ray[..2] <==> x == ray[0] || x == ray[1];
    }
  }

  /**
   * The counters one (cell, direction) pair increments, when the cell's own letter is not a word:
   * the first two cells of its ray, once per match.
   */
  lemma RayEntriesCoverage(g: seq<seq<char>>, n: nat, words: set<string>, c: Cell, d: (int, int), x: Cell)
    requires IsGrid(g, n) && InBounds(n, c) && d in Directions
    requires !SingleLetterWord(g, words, c)
    ensures var ray := Ray(n, c, d);
      CoverOne(ray, x) == 1 <==> |ray| >= 2 && (x == ray[0] || x == ray[1])
    ensures var ray := Ray(n, c, d);
      Coverage(RayEntries(g, n, words, c, d), x)
        == if CoverOne(ray, x) == 1 then MatchCount(g, words, ray, |ray|) else 0
  {
    var ray := Ray(n, c, d);
    if |ray| >= 2 {
      RayIsStraight(n, c, d, 1);
      assert x in ray[..2] <==> x == ray[0] || x == ray[1];
      CoverageCopies(ray, MatchCount(g, words, ray, |ray|), x);
    } else {
      assert ray[..1] == [c];
      assert Letters(g, [c]) == [g[c.row][c.col]];
      assert !ValidPrefix(g, words, ray, 1);
      assert MatchCount(g, words, ray, |ray|) == 0;
    }
  }

  /** The prefix lengths 1..m of the ray whose letters spell a word. */
  function MatchLengths(g: seq<seq<char>>, words: set<string>, ray: seq<Cell>, m: nat): set<nat> {
    if m == 0 then {}
    else MatchLengths(g, words, ray, m - 1) + if ValidPrefix(g, words, ray, m) then {m} else {}
  }

  /** MatchLengths holds exactly the lengths 1..m whose prefix spells a word. */
  lemma {:induction false} MatchLengthsMembers(g: seq<seq<char>>, words: set<string>, ray: seq<Cell>, m: nat)
    ensures forall k :: k in MatchLengths(g, words, ray, m) <==> 1 <= k <= m && ValidPrefix(g, words, ray, k)
    decreases m
  {
    if m > 0 {
      MatchLengthsMembers(g, words, ray, m - 1);
    }
  }

  lemma AddFresh(s: set<nat>, x: nat)
    requires x !in s
    ensures |s + {x}| == |s| + 1
  {
  }

  /** Each matching prefix length is counted once: MatchCount is the size of the set of matching lengths. */
  lemma {:induction false} MatchCountIsCardinality(g: seq<seq<char>>, words: set<string>, ray: seq<Cell>, m: nat)
    ensures MatchCount(g, words, ray, m) == |MatchLengths(g, words, ray, m)|
    decreases m
  {
    if m > 0 {
      MatchCountIsCardinality(g, words, ray, m - 1);
      if ValidPrefix(g, words, ray, m) {
        MatchLengthsMembers(g, words, ray, m - 1);
        AddFresh(MatchLengths(g, words, ray, m - 1), m);
      }
    }
  }

  lemma {:induction false} MatchCountPositive(g: seq<seq<char>>, words: set<string>, ray: seq<Cell>, m: nat, k: nat)
    requires k <= m && ValidPrefix(g, words, ray, k)
    ensures MatchCount(g, words, ray, m) > 0
    decreases m
  {
    if k < m {
      MatchCountPositive(g, words, ray, m - 1, k);
    }
  }

  lemma {:induction false} MatchCountWitness(g: seq<seq<char>>, words: set<string>, ray: seq<Cell>, m: nat)
    returns (k: nat)
    requires MatchCount(g, words, ray, m) > 0
    ensures k <= m && ValidPrefix(g, words, ray, k)
    decreases m
  {
    if ValidPrefix(g, words, ray, m) {
      k := m;
    } else {
      k := MatchCountWitness(g, words, ray, m - 1);
    }
  }

  /** The scan, read as a relation: one ray, any direction from any cell, with a matching prefix. */
  ghost predicate IsScannedRay(g: seq<seq<char>>, n: nat, words: set<string>, e: seq<Cell>) {
    exists c: Cell, d: (int, int), k: int ::
      InBounds(n, c) && d in Directions && e == Ray(n, c, d) &&
      ValidPrefix(g, words, e, k)
  }

  /** Entry p of what the first i directions from c add is a scanned ray. */
  lemma {:induction false} DirEntrySound(g: seq<seq<char>>, n: nat, words: set<string>, c: Cell, i: nat, p: nat)
    requires InBounds(n, c) && i <= |Directions| && p < |DirEntries(g, n, words, c, i)|
    ensures IsScannedRay(g, n, words, DirEntries(g, n, words, c, i)[p])
    decreases i
  {
    if i > 0 {
      var before := DirEntries(g, n, words, c, i - 1);
      var d := Directions[i - 1];
      var last := RayEntries(g, n, words, c, d);
      assert DirEntries(g, n, words, c, i) == before + last;
      if p < |before| {
        DirEntrySound(g, n, words, c, i - 1, p);
      } else {
        var ray := Ray(n, c, d);
        var k := MatchCountWitness(g, words, ray, |ray|);
        assert last[p - |before|] == ray;
        assert d in Directions && ValidPrefix(g, words, ray, k);
      }
    }
  }

  /** Entry p of row r's first k cells is entry q of the table's cell (r, col), for some col < k. */
  lemma {:induction false} RowEntrySource(t: EntryTable, r: nat, k: nat, p: nat) returns (col: nat, q: nat)
    requires r < |t| && k <= |t[r]| && p < |RowEntries(t, r, k)|
    ensures col < k && q < |t[r][col]| && RowEntries(t, r, k)[p] == t[r][col][q]
    decreases k
  {
    var before := RowEntries(t, r, k - 1);
    assert RowEntries(t, r, k) == before + t[r][k - 1];
    if p < |before| {
      col, q := RowEntrySource(t, r, k - 1, p);
    } else {
      col, q := k - 1, p - |before|;
    }
  }

  /** Entry p of the table's first r rows is entry q of some cell (row, col) with row < r. */
  lemma {:induction false} GridEntrySource(t: EntryTable, r: nat, p: nat) returns (row: nat, col: nat, q: nat)
    requires r <= |t| && p < |GridEntries(t, r)|
    ensures row < r && col < |t[row]| && q < |t[row][col]| && GridEntries(t, r)[p] == t[row][col][q]
    decreases r
  {
    var above := GridEntries(t, r - 1);
    assert GridEntries(t, r) == above + RowEntries(t, r - 1, |t[r - 1]|);
    if p < |above| {
      row, col, q := GridEntrySource(t, r - 1, p);
    } else {
      row := r - 1;
      col, q := RowEntrySource(t, row, |t[row]|, p - |above|);
    }
  }

  /** Soundness of the scan: every recorded entry is a whole ray, from some cell in some direction, with a matching prefix. */
  lemma GridEntriesSound(g: seq<seq<char>>, n: nat, words: set<string>, r: nat, e: seq<Cell>)
    requires r <= n && e in GridEntries(CellTable(g, n, words), r)
    ensures IsScannedRay(g, n, words, e)
  {
    var t := CellTable(g, n, words);
    var entries := GridEntries(t, r);
    var p :| 0 <= p < |entries| && entries[p] == e;
    var row, col, q := GridEntrySource(t, r, p);
    CellTableAt(g, n, words, Cell(row, col));
    DirEntrySound(g, n, words, Cell(row, col), |Directions|, q);
  }

  /** A ray that matches at some length is recorded, whole, at least once. */
  lemma RayEntriesHead(g: seq<seq<char>>, n: nat, words: set<string>, c: Cell, d: (int, int), k: nat)
    requires InBounds(n, c) && ValidPrefix(g, words, Ray(n, c, d), k)
    ensures |RayEntries(g, n, words, c, d)| > 0 && RayEntries(g, n, words, c, d)[0] == Ray(n, c, d)
  {
    var ray := Ray(n, c, d);
    MatchCountPositive(g, words, ray, |ray|, k);
  }

  /** A direction j < i whose ray matches at length k puts that whole ray at index p of the first i directions' entries. */
  lemma {:induction false} DirEntryComplete(g: seq<seq<char>>, n: nat, words: set<string>, c: Cell, i: nat, j: nat, k: nat)
    returns (p: nat)
    requires InBounds(n, c) && j < i <= |Directions|
    requires ValidPrefix(g, words, Ray(n, c, Directions[j]), k)
    ensures p < |DirEntries(g, n, words, c, i)| && DirEntries(g, n, words, c, i)[p] == Ray(n, c, Directions[j])
    decreases i
  {
    var before := DirEntries(g, n, words, c, i - 1);
    var last := RayEntries(g, n, words, c, Directions[i - 1]);
    assert DirEntries(g, n, words, c, i) == before + last;
    if j == i - 1 {
      RayEntriesHead(g, n, words, c, Directions[j], k);
      p := |before|;
    } else {
      p := DirEntryComplete(g, n, words, c, i - 1, j, k);
    }
  }

  /** Entry q of the table's cell (r, col) is entry p of row r's first k cells, for any k past col. */
  lemma {:induction false} RowEntryComplete(t: EntryTable, r: nat, k: nat, col: nat, q: nat) returns (p: nat)
    requires r < |t| && col < k <= |t[r]| && q < |t[r][col]|
    ensures p < |RowEntries(t, r, k)| && RowEntries(t, r, k)[p] == t[r][col][q]
    decreases k
  {
    var before := RowEntries(t, r, k - 1);
    assert RowEntries(t, r, k) == before + t[r][k - 1];
    if col < k - 1 {
      p := RowEntryComplete(t, r, k - 1, col, q);
    } else {
      p := |before| + q;
    }
  }

  /** Entry q of the table's cell (row, col) is entry p of its first r rows, for any r past row. */
  lemma {:induction false} GridEntryComplete(t: EntryTable, r: nat, row: nat, col: nat, q: nat) returns (p: nat)
    requires row < r <= |t| && col < |t[row]| && q < |t[row][col]|
    ensures p < |GridEntries(t, r)| && GridEntries(t, r)[p] == t[row][col][q]
    decreases r
  {
    var above := GridEntries(t, r - 1);
    assert GridEntries(t, r) == above + RowEntries(t, r - 1, |t[r - 1]|);
    if row < r - 1 {
      p := GridEntryComplete(t, r - 1, row, col, q);
    } else {
      var inRow := RowEntryComplete(t, row, |t[row]|, col, q);
      p := |above| + inRow;
    }
  }

  /** Completeness of the scan: every (cell, direction, length) whose letters match records that cell's whole ray. */
  lemma GridEntriesComplete(g: seq<seq<char>>, n: nat, words: set<string>, c: Cell, j: nat, k: nat)
    requires InBounds(n, c) && j < |Directions|
    requires ValidPrefix(g, words, Ray(n, c, Directions[j]), k)
    ensures Ray(n, c, Directions[j]) in GridEntries(CellTable(g, n, words), n)
  {
    var t := CellTable(g, n, words);
    var q := DirEntryComplete(g, n, words, c, |Directions|, j, k);
    CellTableAt(g, n, words, c);
    var p := GridEntryComplete(t, n, c.row, c.col, q);
  }

  /** Without one-letter words every recorded entry has at least two cells, all on the grid. */
  lemma ScannedRayWellFormed(g: seq<seq<char>>, n: nat, words: set<string>, e: seq<Cell>)
    requires IsGrid(g, n) && NoSingleLetterWords(g, n, words)
    requires IsScannedRay(g, n, words, e)
    ensures |e| >= 2 && AllInBounds(n, e)
  {
    var c: Cell, d: (int, int), k: int :| InBounds(n, c) && d in Directions && e == Ray(n, c, d) &&
      ValidPrefix(g, words, e, k);
    assert !SingleLetterWord(g, words, c);
  }
}
