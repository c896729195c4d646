/**
 * The state a CrossGame keeps beside its letters: the recorded entries and the per-cell
 * counters that addWordPath (game.js:401-408) increments, and the shape every field keeps.
 */
module Board {
  import opened Geometry

  /** An n-by-n letter grid. */
  predicate IsGrid(g: seq<seq<char>>, n: nat) {
    |g| == n && forall r :: 0 <= r < n ==> |g[r]| == n
  }

  predicate AllInBounds(n: int, cells: seq<Cell>) {
    forall i :: 0 <= i < |cells| ==> InBounds(n, cells[i])
  }

  /** Every entry has the two cells addWordPath reads, and all its cells are on the grid. */
  predicate WellFormedEntries(n: int, entries: seq<seq<Cell>>) {
    forall i :: 0 <= i < |entries| ==> |entries[i]| >= 2 && AllInBounds(n, entries[i])
  }

  lemma WellFormedAppend(n: int, s: seq<seq<Cell>>, t: seq<seq<Cell>>)
    requires WellFormedEntries(n, s) && WellFormedEntries(n, t)
    ensures WellFormedEntries(n, s + t)
  {
    forall i | 0 <= i < |s + t|
      ensures |(s + t)[i]| >= 2 && AllInBounds(n, (s + t)[i])
    {
      if i >= |s| {
        assert (s + t)[i] == t[i - |s|];
      }
    }
  }

  lemma AppendAssociative(a: seq<seq<Cell>>, b: seq<seq<Cell>>, c: seq<seq<Cell>>)
    ensures (a + b) + c == a + (b + c)
  {
  }

  /** 1 when addWordPath, given the entry e, increments the counter of x; 0 otherwise. */
  function CoverOne(e: seq<Cell>, x: Cell): nat {
    if |e| >= 2 && x in FullPath(e[0], e[1]) then 1 else 0
  }

  /** How many times addWordPath incremented the counter of x while recording entries. */
  function Coverage(entries: seq<seq<Cell>>, x: Cell): nat {
    if entries == [] then 0
    else Coverage(entries[..|entries| - 1], x) + CoverOne(entries[|entries| - 1], x)
  }

  /** A single entry increments exactly the cells on the walk between its first two cells. */
  lemma CoverageSingle(e: seq<Cell>, x: Cell)
    ensures Coverage([e], x) == CoverOne(e, x)
  {
    assert [e][..0] == [];
  }

  /** Counter increments add up over consecutive batches of entries. */
  lemma {:induction false} CoverageAppend(s: seq<seq<Cell>>, t: seq<seq<Cell>>, x: Cell)
    ensures Coverage(s + t, x) == Coverage(s, x) + Coverage(t, x)
    decreases |t|
  {
    if t == [] {
      assert s + t == s;
    } else {
      assert (s + t)[..|s + t| - 1] == s + t[..|t| - 1];
      CoverageAppend(s, t[..|t| - 1], x);
    }
  }

  /** Entries that agree on their first two cells cause the same increments. */
  lemma {:induction false} CoverageSameHeads(s: seq<seq<Cell>>, t: seq<seq<Cell>>, x: Cell)
    requires |s| == |t|
    requires forall i :: 0 <= i < |s| ==> |s[i]| >= 2 && |t[i]| >= 2 && s[i][..2] == t[i][..2]
    ensures Coverage(s, x) == Coverage(t, x)
    decreases |s|
  {
    if s != [] {
      var i := |s| - 1;
      assert s[i][0] == s[i][..2][0] == t[i][..2][0] == t[i][0];
      assert s[i][1] == s[i][..2][1] == t[i][..2][1] == t[i][1];
      CoverageSameHeads(s[..i], t[..i], x);
    }
  }

  /** Each counter of the n-by-n array a holds how many paths of `history` have its cell on the walk between their first two cells. */
  ghost predicate Counts(a: array2<int>, n: nat, history: seq<seq<Cell>>)
    reads a
  {
    && a.Length0 == n && a.Length1 == n
    && forall r, k {:trigger a[r, k]} :: 0 <= r < n && 0 <= k < n ==> a[r, k] == Coverage(history, Cell(r, k))
  }

  /** Counters that count `before` followed by `entries` hold each batch's increments added up. */
  lemma CountsAppended(a: array2<int>, n: nat, before: seq<seq<Cell>>, entries: seq<seq<Cell>>)
    requires Counts(a, n, before + entries)
    ensures forall r, k {:trigger a[r, k]} :: 0 <= r < n && 0 <= k < n ==>
      a[r, k] == Coverage(before, Cell(r, k)) + Coverage(entries, Cell(r, k))
  {
    forall r, k | 0 <= r < n && 0 <= k < n
      ensures a[r, k] == Coverage(before, Cell(r, k)) + Coverage(entries, Cell(r, k))
    {
      CoverageAppend(before, entries, Cell(r, k));
    }
  }

  /** Recording one more path adds its own increments to every counter. */
  lemma CoverageRecord(history: seq<seq<Cell>>, e: seq<Cell>, x: Cell)
    ensures Coverage(history + [e], x) == Coverage(history, x) + CoverOne(e, x)
  {
    CoverageAppend(history, [e], x);
    CoverageSingle(e, x);
  }

  /**
   * The shape a CrossGame's fields keep: an n-by-n grid and counter array, at least one start
   * point, well-formed entries, and a gesture of at most two distinct cells, all on the grid.
   */
  ghost predicate GameShape(n: nat, grid: seq<seq<char>>, rows: int, cols: int, startPoints: seq<Cell>,
                            foundWords: seq<seq<Cell>>, currentPath: seq<Cell>)
  {
    && IsGrid(grid, n)
    && rows == n && cols == n
    && |startPoints| >= 1 && AllInBounds(n, startPoints)
    && WellFormedEntries(n, foundWords)
    && |currentPath| <= 2 && AllInBounds(n, currentPath)
    && (|currentPath| == 2 ==> currentPath[0] != currentPath[1])
  }
}
