/**
 Board state of the 3x3 sliding-tile puzzle (the "8-puzzle"): the grid of
 tile values, the coordinates of the blank, the one-slide neighbours of a
 state, the flattened key used by the visited set, and the goal test.
 */
module Board {

  /** Side of the square board. */
  const Size: int := 3

  /** Number of cells of the board, and length of a key. */
  const Cells: int := 9

  /** A grid of tile values, 0 being the blank. Like the fixed-size array it
      models, every grid has exactly three rows of three cells. */
  type Grid = g: seq<seq<int>> | |g| == 3 && forall i :: 0 <= i < 3 ==> |g[i]| == 3
    witness [[0, 0, 0], [0, 0, 0], [0, 0, 0]]

  /** The canonical ordered arrangement, blank in the bottom-right corner. */
  const Goal: Grid := [[1, 2, 3], [4, 5, 6], [7, 8, 0]]

  /** A search state: the grid, the blank's row and column (kept alongside
      the grid, never recomputed from it) and the grids recorded on the way
      to this state. */
  datatype Puzzle = Puzzle(grid: Grid, blankRow: int, blankCol: int, path: seq<Grid>)

  /** Row and column offsets of the four blank moves, in the order they are tried. */
  const RowDelta: seq<int> := [1, -1, 0, 0]
  const ColDelta: seq<int> := [0, 0, 1, -1]

  function Abs(x: int): (r: int)
    ensures r >= 0
    ensures r == x || r == -x
  {
    if x < 0 then -x else x
  }

  /** The cell (r, c) lies on the board. */
  predicate ValidPosition(r: int, c: int)
  {
    0 <= r < Size && 0 <= c < Size
  }

  /** Row and column of the flat (row-major) cell index c. */
  function RowOf(c: int): int
  {
    if c < Size then 0 else if c < 2 * Size then 1 else 2
  }

  function ColOf(c: int): int
  {
    c - Size * RowOf(c)
  }

  /** Cell (i, j) has flat index 3i+j. */
  lemma FlatIndex()
    ensures forall i, j :: ValidPosition(i, j) ==> RowOf(3 * i + j) == i && ColOf(3 * i + j) == j
  {
  }

  /** Row-major flattening of a grid: the key of the visited set. */
  function Key(g: Grid): (k: seq<int>)
    ensures |k| == Cells
    ensures forall c :: 0 <= c < |k| ==> k[c] == g[RowOf(c)][ColOf(c)]
  {
    g[0] + g[1] + g[2]
  }

  /** Two grids have the same key exactly when they are the same grid, so
      membership of a key in the visited set is membership of the grid. */
  lemma KeyInjective(g: Grid, h: Grid)
    ensures Key(g) == Key(h) <==> g == h
  {
    if Key(g) == Key(h) {
      forall i | 0 <= i < Size
        ensures g[i] == h[i]
      {
        assert forall j :: 0 <= j < Size ==> g[i][j] == Key(g)[3 * i + j] == h[i][j];
      }
    }
  }

  /** The goal test: cell-by-cell equality with the goal grid. */
  function IsFinal(g: Grid): (r: bool)
    ensures r <==> forall i, j :: 0 <= i < Size && 0 <= j < Size ==> g[i][j] == Goal[i][j]
    ensures r <==> Key(g) == Key(Goal)
  {
    KeyInjective(g, Goal);
    g == Goal
  }

  /** The grid g with the cells (r1, c1) and (r2, c2) exchanged; g itself is a value and stays as it is. */
  function Swap(g: Grid, r1: int, c1: int, r2: int, c2: int): (h: Grid)
    requires ValidPosition(r1, c1) && ValidPosition(r2, c2)
    ensures h[r1][c1] == g[r2][c2] && h[r2][c2] == g[r1][c1]
    ensures forall i, j :: ValidPosition(i, j) && (i != r1 || j != c1) && (i != r2 || j != c2) ==> h[i][j] == g[i][j]
  {
    var a := g[r1][c1];
    var b := g[r2][c2];
    var g1 := g[r1 := g[r1][c1 := b]];
    g1[r2 := g1[r2][c2 := a]]
  }

  /** Exchanging two distinct cells exchanges the corresponding key entries. */
  lemma KeySwap(g: Grid, r1: int, c1: int, r2: int, c2: int)
    requires ValidPosition(r1, c1) && ValidPosition(r2, c2)
    requires r1 != r2 || c1 != c2
    ensures Key(g)[3 * r1 + c1] == g[r1][c1] && Key(g)[3 * r2 + c2] == g[r2][c2]
    ensures Key(Swap(g, r1, c1, r2, c2)) == Key(g)[3 * r1 + c1 := g[r2][c2]][3 * r2 + c2 := g[r1][c1]]
  {
    FlatIndex();
    var k := Key(g)[3 * r1 + c1 := g[r2][c2]][3 * r2 + c2 := g[r1][c1]];
    var h := Swap(g, r1, c1, r2, c2);
    forall c | 0 <= c < Cells
      ensures Key(h)[c] == k[c]
    {
      assert Key(h)[c] == h[RowOf(c)][ColOf(c)];
    }
  }

  /** Exchanging two entries of a sequence keeps its multiset. */
  lemma MultisetExchange(k: seq<int>, i1: int, i2: int)
    requires 0 <= i1 < |k| && 0 <= i2 < |k|
    ensures multiset(k[i1 := k[i2]][i2 := k[i1]]) == multiset(k)
  {
    var a, b := k[i1], k[i2];
    var k1 := k[i1 := b];
    var m, m1, m2 := multiset(k), multiset(k1), multiset(k1[i2 := a]);
    assert m1 == m - multiset{a} + multiset{b};
    assert k1[i2] == b;
    assert m2 == m1 - multiset{b} + multiset{a};
    assert a in m;
    forall x
      ensures m2[x] == m[x]
    {
    }
  }

  /** Exchanging two cells keeps the multiset of tile values. */
  lemma SwapKeepsTiles(g: Grid, r1: int, c1: int, r2: int, c2: int)
    requires ValidPosition(r1, c1) && ValidPosition(r2, c2)
    ensures multiset(Key(Swap(g, r1, c1, r2, c2))) == multiset(Key(g))
  {
    if r1 == r2 && c1 == c2 {
      KeyInjective(Swap(g, r1, c1, r2, c2), g);
      assert Key(Swap(g, r1, c1, r2, c2)) == Key(g);
    } else {
      KeySwap(g, r1, c1, r2, c2);
      MultisetExchange(Key(g), 3 * r1 + c1, 3 * r2 + c2);
    }
  }

  /** All entries are pairwise different. */
  predicate Distinct(s: seq<int>)
  {
    forall i, j :: 0 <= i < |s| && 0 <= j < |s| && i != j ==> s[i] != s[j]
  }

  /** The grid holds each of 0..8 exactly once. */
  predicate IsTilePermutation(g: Grid)
  {
    Distinct(Key(g)) && forall c :: 0 <= c < Cells ==> 0 <= Key(g)[c] < Cells
  }

  /** The recorded blank coordinates are on the board and hold the blank. */
  predicate HoldsBlank(p: Puzzle)
  {
    ValidPosition(p.blankRow, p.blankCol) && p.grid[p.blankRow][p.blankCol] == 0
  }

  /** A state as the generator produces it. */
  predicate WellFormed(p: Puzzle)
  {
    IsTilePermutation(p.grid) && HoldsBlank(p)
  }

  /** Exchanging two entries keeps the entries pairwise different and
      within 0..8. */
  lemma ExchangeKeepsDistinct(k: seq<int>, k2: seq<int>, i1: int, i2: int)
    requires 0 <= i1 < |k| && 0 <= i2 < |k| && Distinct(k)
    requires forall c :: 0 <= c < |k| ==> 0 <= k[c] < Cells
    requires k2 == k[i1 := k[i2]][i2 := k[i1]]
    ensures Distinct(k2)
    ensures forall c :: 0 <= c < |k2| ==> 0 <= k2[c] < Cells
  {
    forall c, d | 0 <= c < |k| && 0 <= d < |k| && c != d
      ensures k2[c] != k2[d]
    {
      // positions c and d are sent to two different positions of k
      var pc := if c == i1 then i2 else if c == i2 then i1 else c;
      var pd := if d == i1 then i2 else if d == i2 then i1 else d;
      assert k2[c] == k[pc] && k2[d] == k[pd];
    }
  }

  /** Exchanging two cells keeps a tile permutation a tile permutation. */
  lemma SwapKeepsPermutation(g: Grid, r1: int, c1: int, r2: int, c2: int)
    requires ValidPosition(r1, c1) && ValidPosition(r2, c2)
    requires IsTilePermutation(g)
    ensures IsTilePermutation(Swap(g, r1, c1, r2, c2))
  {
    var h := Swap(g, r1, c1, r2, c2);
    if r1 == r2 && c1 == c2 {
      KeyInjective(h, g);
      assert Key(h) == Key(g);
    } else {
      var i1, i2 := 3 * r1 + c1, 3 * r2 + c2;
      var k := Key(g);
      KeySwap(g, r1, c1, r2, c2);
      ExchangeKeepsDistinct(k, Key(h), i1, i2);
    }
  }

  /** The cell the blank moves to along direction d. */
  function TargetRow(p: Puzzle, d: int): int
    requires 0 <= d < 4
  {
    p.blankRow + RowDelta[d]
  }

  function TargetCol(p: Puzzle, d: int): int
    requires 0 <= d < 4
  {
    p.blankCol + ColDelta[d]
  }

  /** Expanding p reads the grid at the blank coordinates whenever some
      target cell is on the board, so those coordinates must then be on the
      board too (otherwise the array access fails). */
  predicate Expandable(p: Puzzle)
  {
    ValidPosition(p.blankRow, p.blankCol)
    || forall d :: 0 <= d < 4 ==> !ValidPosition(TargetRow(p, d), TargetCol(p, d))
  }

  /** The state reached from p by moving the blank along direction d: the
      two cells exchanged, the blank coordinates moved, and the NEW grid
      appended to the path. Empty when the target is off the board. */
  function Move(p: Puzzle, d: int): seq<Puzzle>
    requires 0 <= d < 4 && Expandable(p)
  {
    var r := TargetRow(p, d);
    var c := TargetCol(p, d);
    if ValidPosition(r, c) then
      var g := Swap(p.grid, p.blankRow, p.blankCol, r, c);
      [Puzzle(g, r, c, p.path + [g])]
    else
      []
  }

  /** c is a one-slide successor of p: the blank coordinates moved to an
      orthogonally adjacent cell, the two cells exchanged, every other cell
      unchanged, and the path extended by exactly the child's own grid. */
  predicate IsChild(p: Puzzle, c: Puzzle)
  {
    && ValidPosition(p.blankRow, p.blankCol)
    && ValidPosition(c.blankRow, c.blankCol)
    && Abs(c.blankRow - p.blankRow) + Abs(c.blankCol - p.blankCol) == 1
    && c.grid == Swap(p.grid, p.blankRow, p.blankCol, c.blankRow, c.blankCol)
    && c.path == p.path + [c.grid]
  }

  /** The one-slide neighbours of p, tried in the order row+1, row-1, col+1, col-1. */
  function Adjacent(p: Puzzle): (r: seq<Puzzle>)
    requires Expandable(p)
    ensures |r| <= 4
    ensures forall c :: c in r ==> IsChild(p, c)
    ensures forall d :: 0 <= d < 4 && ValidPosition(TargetRow(p, d), TargetCol(p, d)) ==>
      exists c :: c in r && c.blankRow == TargetRow(p, d) && c.blankCol == TargetCol(p, d)
  {
    Move(p, 0) + Move(p, 1) + Move(p, 2) + Move(p, 3)
  }

  /** Which of the four moves leads from p to the child c. */
  function DirectionOf(p: Puzzle, c: Puzzle): int
  {
    if c.blankRow == p.blankRow + 1 then 0
    else if c.blankRow == p.blankRow - 1 then 1
    else if c.blankCol == p.blankCol + 1 then 2
    else 3
  }

  /** The neighbours come in the fixed move order, each move at most once. */
  lemma AdjacentOrdered(p: Puzzle)
    requires Expandable(p)
    ensures forall k, l :: 0 <= k < l < |Adjacent(p)| ==>
      DirectionOf(p, Adjacent(p)[k]) < DirectionOf(p, Adjacent(p)[l])
  {
    var m0, m1, m2, m3 := Move(p, 0), Move(p, 1), Move(p, 2), Move(p, 3);
    assert forall c :: c in m0 ==> DirectionOf(p, c) == 0;
    assert forall c :: c in m1 ==> DirectionOf(p, c) == 1;
    assert forall c :: c in m2 ==> DirectionOf(p, c) == 2;
    assert forall c :: c in m3 ==> DirectionOf(p, c) == 3;
  }

  /** Two neighbours in a corner, three on an edge, four in the centre. */
  lemma AdjacentCount(p: Puzzle)
    requires ValidPosition(p.blankRow, p.blankCol)
    ensures |Adjacent(p)| == 4
      - (if p.blankRow == 0 || p.blankRow == Size - 1 then 1 else 0)
      - (if p.blankCol == 0 || p.blankCol == Size - 1 then 1 else 0)
  {
  }

  /** A child keeps the tiles, keeps the blank value at the blank
      coordinates, and stays a well-formed state when its parent is one. */
  lemma ChildInvariants(p: Puzzle, c: Puzzle)
    requires IsChild(p, c)
    ensures multiset(Key(c.grid)) == multiset(Key(p.grid))
    ensures c.grid[c.blankRow][c.blankCol] == p.grid[p.blankRow][p.blankCol]
    ensures HoldsBlank(p) ==> HoldsBlank(c)
    ensures IsTilePermutation(p.grid) ==> IsTilePermutation(c.grid)
    ensures |c.path| == |p.path| + 1 && c.path[|p.path|] == c.grid
  {
    SwapKeepsTiles(p.grid, p.blankRow, p.blankCol, c.blankRow, c.blankCol);
    if IsTilePermutation(p.grid) {
      SwapKeepsPermutation(p.grid, p.blankRow, p.blankCol, c.blankRow, c.blankCol);
    }
  }
}
