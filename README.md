# CrossGame rules engine in Dafny

This project models the rules engine of the CrossGame word-connection puzzle. That engine is the
`CrossGame` class of `game.js`. The player drags straight segments across an N×N letter grid:
- A segment is accepted when it is horizontal, vertical or diagonal and its letters spell a
  dictionary word in either direction.
- Once a word is recorded, the segment must also touch a word already found. The first word need not.
- The segment is not recorded when some recorded entry has all its listed cells among the segment's two end cells.
- The game is won when the found words connect the first start point to another start point.

A scanner, `solve`, records every word the grid holds; `hasWon` then decides whether the recorded words link the start points:
- It walks from every cell in each of the eight directions to the edge of the grid.
- It records each prefix whose letters are a word.
- Through `addWordPath`, it increments a per-cell counter for each cell on the walk between a recorded path's first two cells.

The model has six modules:

| module | what it holds |
|---|---|
| `Geometry` | Cells. The walk `getFullPath` draws between two cells. The `GetFullPath` loop, proved equal to the `FullPath` function. |
| `Words` | `isValidWord`: a word is accepted when it or its reversal is in the dictionary. |
| `Board` | The shape every field of the game keeps. The per-cell counters. `Coverage`, which counts how often recorded paths increment a cell. |
| `Scanner` | What `solve` records, stated as values. The ray from a cell to the edge. The matching prefix lengths. The entries per cell, per row and per grid. How the scan ends. Soundness and completeness of the recorded entries. |
| `Connectivity` | The breadth-first search of `hasWon`. It is proved to decide a reachability relation: a walk of 8-neighbours through connected cells, whose last cell need only be a neighbour. |
| `Game` | The class `CrossGame` with the source's fields. `foundWords` and `currentPath` are mutable fields. `letterCount` is an `array2` updated in place. The scanner, the search and the gesture handlers are methods on it. |

Two ghost predicates carry the invariants of the class:
- `Valid()` holds that every field keeps its shape.
  - The grid and the counters are N×N.
  - Every entry has at least two cells, all on the grid.
  - The gesture has at most two distinct cells.
- `Counted()` holds that each counter equals `Coverage(history, cell)`.
  - The ghost field `history` lists every path `addWordPath` ever recorded, including those a later `solve` discarded.
  - `solve` never resets the counters.

The JavaScript aliasing of `findWordsFromCell` is modelled by value:
- Every match in one direction pushes the same growing `path` array, so each recorded entry ends up as the whole ray to the edge.
- `CrossGame.FollowRay` records each prefix as `addWordPath` sees it.
- `CrossGame.ShareFinalPath` then gives every entry recorded in that direction the final contents of the array.
- `Scanner.RecordedRayCoverage` shows the counters are the same either way, because `addWordPath` reads only the first two cells.

Where the code behaves differently from what a reader of the rules might expect, the model follows the code:

- `addWordPath` increments only the counters on the walk between `path[0]` and `path[1]`, not every cell of the path. For a scanned ray these are its first two cells.
- Words played by hand are pushed straight onto `foundWords` by `onMouseUp`. They never change a counter.
- A one-letter match reaches `addWordPath` with a one-cell path. The entry is pushed, and then reading `path[1]` throws.
  - The model returns `ok == false` from `AddWordPath`.
  - `Solve` stops with `Threw(cell)` at the first such cell in row-major order. It leaves the exact state the exception leaves: the entries of the cells before, then the one-cell entry.
- `hasWon` puts only the listed cells of each entry into the connected set. A played word lists only its two endpoints.
- `hasWon` succeeds as soon as a later start point is dequeued. That start point may only be a neighbour of a connected cell.
- `isValidStartCell` accepts any cell once `foundWords` is not empty.
- `isCellInCurrentPath` tests the first cell's row and column before the diagonal. On a diagonal gesture it also reports cells of that row and column.

## Model

| member | source | states |
|---|---|---|
| Geometry.GetFullPath | game.js:157-182 | The loop terminates for any two cells, collinear or not (its measure is the remaining distance), and returns exactly FullPath(a, b), the cell reached after k steps when each coordinate moves on its own towards its target |
| Geometry.FullPathShape | game.js:157-182 | The walk starts at a, ends at b, has max(\|Δrow\|, \|Δcol\|) + 1 cells, and consecutive cells are distinct and differ by at most one in each coordinate |
| Geometry.FullPathDistinct | game.js:157-182 | A walk never visits a cell twice |
| Geometry.FullPathInBounds | game.js:157-182 | A walk between two grid cells stays on the grid |
| Geometry.StraightFullPath | game.js:157-182 | Between collinear endpoints the k-th cell is the first cell moved k steps in the direction (sign Δrow, sign Δcol) |
| Geometry.BentFullPath | game.js:171-179 | Between endpoints that are not collinear the walk is a diagonal run of min(\|Δrow\|, \|Δcol\|) steps, then a straight run along the row or column of the end cell |
| Geometry.CollinearFullPathReversed | game.js:157-182 | Between collinear endpoints the walk from b to a is the walk from a to b read backwards |
| Words.ReverseInvolutive | game.js:190-192 | Reversing a word twice gives the word back |
| Words.ValidWordSymmetric | game.js:190-192 | isValidWord accepts a string exactly when it accepts its reversal |
| Game.WalkOnSegment | game.js:93-117 | For a gesture whose endpoints are on one row, column or diagonal, every cell of getFullPath(first, last) is reported as on the gesture |
| Game.AxisSegmentIsWalk | game.js:93-117 | For a gesture along a row or a column, a cell is reported exactly when it is on getFullPath(first, last) |
| Game.OffAxesSegmentOnWalk | game.js:93-117 | A cell off the first cell's row and column is reported only if it is on the walk |
| Game.DiagonalSegmentOverreaches | game.js:109-112 | On the diagonal gesture (0,0)–(2,2) the same-row test reports (0,1), which the walk does not visit |
| Game.CrossGame.ValidPathSymmetric | game.js:132-145 | isValidPath(a, b) and isValidPath(b, a) always agree: the walk back covers the same cells |
| Game.ReversedGestureSameVerdict | game.js:184-192 | Reading a collinear gesture from its other end gives the reversed letters, so isValidWord accepts both readings or neither |
| Connectivity.CollectCells | game.js:196-198 | The loop builds exactly the set of cells listed in any entry |
| Connectivity.Neighbours | game.js:218-227 | The double loop lists exactly the in-bounds cells other than x that differ from x by at most one in each coordinate |
| Connectivity.Search | game.js:200-231 | The breadth-first search terminates, because each round visits a new connected cell or shortens the queue. It answers true exactly when some start point other than the first is reachable from the first by 8-neighbour steps through connected cells, the last step landing on any in-bounds cell |
| Connectivity.NothingLinkedWithoutCells | game.js:194-232 | With no connected cells and start points distinct from the first, no start point is reached |
| Connectivity.LinkedThroughNeighbour | game.js:208-212 | A later start point next to a connected cell that is reachable from the first start point is reached, whether or not it is itself a connected cell |
| Connectivity.LinkedThroughNeighbourExample | game.js:208-212 | On a 3×3 grid with connected cells (0,0), (0,1), the start point (0,2), which is not connected, is reached from (0,0) |
| Connectivity.LinkedMonotone | game.js:194-232 | Adding connected cells never undoes a win |
| Connectivity.ClosedHoldsReachable | game.js:204-229 | A seen set that holds the first start point and every neighbour of its connected cells holds every reachable cell: the state the search ends in |
| Words.IsValidWord | game.js:190-192 | isValidWord accepts every dictionary word; its partner is Words.ValidWordSymmetric |
| Game.OnSegment | game.js:103-116 | The two-cell test of isCellInCurrentPath always reports the first cell, and the last cell when the gesture is collinear; its partners are Game.WalkOnSegment, Game.AxisSegmentIsWalk, Game.OffAxesSegmentOnWalk and Game.DiagonalSegmentOverreaches |
| Game.CrossGame.IsCellInFoundWords | game.js:86-91 | A cell reported as part of a found word is on the grid, and both endpoints of every entry are reported |
| Game.CrossGame.IsCellInCurrentPath | game.js:93-117 | Nothing is reported for an empty gesture; for a one-cell gesture exactly that cell is reported; the first cell is always reported; for a collinear gesture every cell of getFullPath(first, last) is reported |
| Game.CrossGame.IsStartPoint | game.js:119-121 | True exactly when some start point has the cell's row and column |
| Game.CrossGame.IsValidStartCell | game.js:124-126 | Once a word is recorded every cell is accepted; before that, exactly the start points |
| Game.CrossGame.IsValidPath | game.js:132-145 | An accepted segment has distinct collinear endpoints and at least two cells; with nothing recorded every such segment is accepted; otherwise such a segment is accepted exactly when some cell of its walk is part of a found word. Its partner is Game.CrossGame.ValidPathSymmetric |
| Game.CrossGame.IsValidCurrentPath | game.js:147-155 | Only a gesture of exactly two distinct collinear cells passes |
| Game.CrossGame.WordFromCurrentPath | game.js:184-188 | The word has one letter per cell of the walk from the first to the last cell of the gesture: its i-th letter is the letter under the walk's i-th cell, so it starts with the first cell's letter and ends with the last cell's. Its partner is Game.ReversedGestureSameVerdict |
| Game.CrossGame.AlreadyFound | game.js:332 | An entry equal to the gesture, or to its two cells in the other order, counts as already found; nothing is found when no entry is recorded |
| Game.CrossGame.NotWonWithoutEntries | game.js:194-232 | With no entry recorded and every later start point distinct from the first, Won() — what hasWon decides through Connectivity.Search — is false |
| Game.CrossGame.HasWon | game.js:194-232 | hasWon answers Won(): the connected cells of foundWords link startPoints[0] to a later start point. It writes no field, so two calls in a row agree |
| Game.CrossGame.AddWordPath | game.js:401-408 | Appends the path to foundWords; with two or more cells, increments by exactly one the counter of each cell on getFullPath(path[0], path[1]) and leaves every other counter unchanged; with fewer, reports the throw after the push |
| Board.CoverageRecord | game.js:401-408 | Recording one more path adds that path's increments to each cell's count |
| Board.CoverageAppend | game.js:401-408 | Counts over two batches of recorded paths add up |
| Board.CoverageSameHeads | game.js:402-406 | Paths that agree on their first two cells cause the same increments |
| Board.CountsAppended | game.js:401-408 | Counters that count two batches hold the sum of each batch's increments |
| Scanner.Ray | game.js:428-443 | A ray starts at its cell and lies on the grid |
| Scanner.RayShape | game.js:432-443 | The cell one step past a ray is off the grid, so the scanning loop stops exactly at the edge |
| Scanner.RayIsStraight | game.js:428-443 | Every prefix of a ray is the walk getFullPath draws between the ray's first cell and the prefix's last |
| Scanner.WalkStep | game.js:435-440 | One round of the scanning loop: the path and the word grow by one cell and its letter, and the matches grow by the new path exactly when the new word is accepted |
| Scanner.WalkEnd | game.js:432-443 | When the scanning loop stops, the path read is the whole ray |
| Scanner.MatchesHeads | game.js:428-443 | When the first letter alone is not a word, every match has two or more cells on the grid and begins with the ray's first two cells |
| Scanner.RayEntriesWellFormed | game.js:428-444 | When the start cell's letter is not a word, everything a direction records has two or more cells on the grid |
| Scanner.RecordedRayCoverage | game.js:401-444 | Recording the whole ray in place of each matching prefix leaves every counter as it was |
| Scanner.RayEntriesCoverage | game.js:401-444 | One direction from a cell increments the counters of the first two cells of its ray once per match, and no other counter |
| Scanner.MatchCountIsCardinality | game.js:428-443 | The number of entries a direction records is the number of distinct prefix lengths whose letters spell a word |
| Scanner.ScanOfCompletes | game.js:410-446 | solve completes exactly when no single letter of the grid is a word |
| Scanner.ScanOfUnique | game.js:410-446 | The grid alone decides how solve ends: completion, or a throw at one particular cell |
| Scanner.GridEntriesSound | game.js:410-446 | Every entry a scan records is the whole ray from some cell in one of the eight directions, and some prefix of that ray spells a word |
| Scanner.GridEntriesComplete | game.js:410-446 | For every cell, direction and prefix length whose letters spell a word, a completed scan records that cell's whole ray in that direction |
| Scanner.ScannedRayWellFormed | game.js:401-446 | Without one-letter words every recorded ray has at least the two cells addWordPath reads, all on the grid |
| Game.CrossGame.ReadCell | game.js:435-440 | One round of findWordsFromCell's loop: extends the word and the path, and records the path when the word is accepted; throws only on the first round, when the start letter alone is a word |
| Game.CrossGame.FollowRay | game.js:428-444 | One direction: throws exactly when the start letter is a word; otherwise appends one copy of the whole ray per matching prefix length and keeps the counters counting every recorded path |
| Game.CrossGame.ShareFinalPath | game.js:431-440 | The entries recorded since the direction began all end up as the final contents of the one shared path array |
| Game.CrossGame.FindWordsFromCell | game.js:426-446 | Appends, for the eight directions in order, what each records; throws exactly when the cell's letter is a word |
| Game.CrossGame.NextDirection | game.js:427-444 | One round of findWordsFromCell's outer loop keeps foundWords equal to the entries of the directions handled so far |
| Game.CrossGame.Solve | game.js:410-424 | Empties foundWords, then records exactly the entries of every cell in row-major order; completes exactly when no single letter is a word, otherwise stops at the first such cell with the one-cell entry pushed; each counter grows by the increments of the recorded entries |
| Game.CrossGame.ScanGrid | game.js:418-422 | The two loops of solve record the entries of every row in order, or stop at the first one-letter word |
| Game.CrossGame.NextRow | game.js:418-422 | One round of the outer loop keeps foundWords equal to the entries of the rows above |
| Game.CrossGame.ScanRow | game.js:419-421 | The inner loop records the entries of the row's cells in order, or stops at its first one-letter word |
| Game.CrossGame.NextCell | game.js:420 | One round of the inner loop: throws exactly when the cell's letter is a word; otherwise foundWords grows by that cell's entries |
| Game.CrossGame.constructor | game.js:2-17 | A game over the given letters, dictionary and start points, with every counter 0 and no entries or gesture |
| Game.CrossGame.OnMouseDown | game.js:304-310 | The gesture restarts at the cell when isValidStartCell accepts it, and is otherwise left alone |
| Game.CrossGame.OnMouseMove | game.js:312-324 | With a gesture in progress and a cell other than its first, the gesture becomes [first, cell]; otherwise nothing changes; the gesture keeps at most two cells and its first cell |
| Game.CrossGame.OnMouseLeave | game.js:299-302 | The gesture is dropped |
| Game.CrossGame.OnMouseUp | game.js:326-353 | A release with two or more cells empties the gesture. foundWords grows by at most the gesture, and it grows exactly when the segment is valid, its letters are a word and no entry lies inside the gesture. A gesture whose two cells match an entry, in either order, is not appended. `won` is hasWon's answer after recording |
| Game.ReplayedGestureRecordedOnce | game.js:304-353 | Playing the same drag twice adds at most one entry |
| Game.SolvedDifficulty | game.js:378-389 | The difficulty level is one of 0, 1, 2, 3 |
| Game.MoreWordsNoHarder | game.js:378-389 | More words found never gives a harder level |
| Game.CrossGame.GetSolvedGameDifficulty | game.js:378-389 | The thresholds applied to the number of found words give a level of at most 3 |
| Game.PointOnSide | game.js:78-85 | With the two random draws passed in, the point lies on the grid and on its border |

## Left out

- Rendering (`renderGrid`), the canvas and the DOM event wiring (`addEventListeners`) are not modelled: they draw, they do not decide.
- `getCellFromMouseEvent` converts pixels to cells with floating point. Gestures enter the model as grid cells.
- `loadWords` fetches the word list asynchronously. The dictionary is given to the constructor as a set of strings.
- The object lookup is not modelled. `isValidWord` looks words up as keys of a plain object, so inherited keys such as `constructor` also answer. The model uses set membership. Grid letters are upper-case, and no inherited key is.
- `getRandomLetter`, `randomLetter` and `frequencyLetter` are not modelled, and neither is the random fill of `createGrid`. They depend on `Math.random`; the letters are given to the constructor.
- `getRandomPointOnSide` is modelled with its draws as parameters (`Game.PointOnSide`).
- `initializeGame`, `resetGame`, `setDifficulty` and `findSolvableGame` are not modelled. They are asynchronous. `findSolvableGame` loops without bound, and the grid it retests is not regenerated.
- Because nothing replaces them, `grid`, `words`, `startPoints` and the counter array are `const` fields of the class.
- The alert and the difficulty auto-advance with rebuild after a win in `onMouseUp` are left out. `OnMouseUp` returns hasWon's answer instead.
- The array object shared by the scanner's entries is modelled by value, not by reference. After a direction is scanned, its entries are the same value. A later mutation of one of them would not be seen through the others; the engine makes none.
- `LetterAt` gives a blank for a cell off the grid. The game never reads one.
- Game.CrossGame.IsCellInFoundWords requires `Valid()`, so that every entry has the two cells it reads. In the source a one-cell entry left by a thrown `solve` would make it throw.
- Words.IsValidWord: its own contract states only that dictionary words are accepted. The exact condition, the word or its reversal, is the function's body, and the property proved about it is Words.ValidWordSymmetric. Stating the condition in the contract would make every scanner proof reason about reversals.
