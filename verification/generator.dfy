/**
 The deterministic part of the board generator: the random permutation of
 0..8 is a parameter; the grid is laid out from it row by row and the blank
 coordinates are found by a scan over the grid.
 */
module Generator {
  import opened Board

  /** perm is a permutation of 0..8. */
  predicate IsPermutation(perm: seq<int>)
  {
    && |perm| == Cells
    && (forall c :: 0 <= c < Cells ==> 0 <= perm[c] < Cells)
    && Distinct(perm)
  }

  /** The grid whose cell (i, j) holds perm[3i+j]. */
  function Layout(perm: seq<int>): (g: Grid)
    requires |perm| == Cells
    ensures Key(g) == perm
  {
    var g: Grid := [perm[0..3], perm[3..6], perm[6..9]];
    assert g[0] + g[1] + g[2] == perm;
    g
  }

  /** The blank scan: each row is scanned from the left and left at its
      first 0, but the scan goes on with the next rows, so the result is the
      first 0 of the LAST row holding one; (0, 0) when no cell holds 0. */
  method FindBlank(g: Grid) returns (x: int, y: int)
    ensures (forall i, j :: ValidPosition(i, j) ==> g[i][j] != 0) ==> x == 0 && y == 0
    ensures (exists i, j :: ValidPosition(i, j) && g[i][j] == 0) ==>
      && ValidPosition(x, y) && g[x][y] == 0
      && (forall i, j :: ValidPosition(i, j) && x < i ==> g[i][j] != 0)
      && (forall j :: 0 <= j < y ==> g[x][j] != 0)
  {
    x, y := 0, 0;
    ghost var seen := false;
    for i := 0 to Size
      invariant !seen ==> x == 0 && y == 0
      invariant !seen ==> forall i', j :: 0 <= i' < i && 0 <= j < Size ==> g[i'][j] != 0
      invariant seen ==> 0 <= x < i && 0 <= y < Size && g[x][y] == 0
      invariant seen ==> forall i', j :: x < i' < i && 0 <= j < Size ==> g[i'][j] != 0
      invariant seen ==> forall j :: 0 <= j < y ==> g[x][j] != 0
    {
      for j := 0 to Size
        invariant forall j' :: 0 <= j' < j ==> g[i][j'] != 0
        invariant !seen ==> x == 0 && y == 0
        invariant seen ==> 0 <= x < i && 0 <= y < Size && g[x][y] == 0
      {
        if g[i][j] == 0 {
          x, y := i, j;
          seen := true;
          break;
        }
      }
    }
  }

  /** A generated state: the laid-out grid, the scanned blank coordinates
      and an empty path. */
  method Generate(perm: seq<int>) returns (p: Puzzle)
    requires |perm| == Cells
    ensures Key(p.grid) == perm && p.path == []
    ensures ValidPosition(p.blankRow, p.blankCol)
    ensures IsPermutation(perm) ==> WellFormed(p)
  {
    var g := Layout(perm);
    var x, y := FindBlank(g);
    p := Puzzle(g, x, y, []);
    if IsPermutation(perm) {
      ZeroPlaced(perm);
      var c :| 0 <= c < Cells && perm[c] == 0;
      assert g[RowOf(c)][ColOf(c)] == 0;
    }
  }

  /** A permutation of 0..8 contains the blank. */
  lemma ZeroPlaced(perm: seq<int>)
    requires IsPermutation(perm)
    ensures exists c :: 0 <= c < Cells && perm[c] == 0
  {
    // nine distinct values in 0..8 leave none of them out
    var values := set c | 0 <= c < Cells :: perm[c];
    DistinctValues(perm);
    if 0 !in values {
      var tiles := {1, 2, 3, 4, 5, 6, 7, 8};
      assert values <= tiles;
      SubsetCardinality(values, tiles);
      assert false;
    }
  }

  lemma SubsetCardinality(a: set<int>, b: set<int>)
    requires a <= b
    ensures |a| <= |b|
  {
    assert b == a + (b - a);
  }

  /** Distinct entries give as many values as entries. */
  lemma DistinctValues(perm: seq<int>)
    requires |perm| == Cells && Distinct(perm)
    ensures |set c | 0 <= c < Cells :: perm[c]| == Cells
  {
    DistinctPrefixValues(perm, Cells);
  }

  lemma {:induction false} DistinctPrefixValues(perm: seq<int>, n: int)
    requires 0 <= n <= |perm| && Distinct(perm)
    ensures |set c | 0 <= c < n :: perm[c]| == n
  {
    if n > 0 {
      DistinctPrefixValues(perm, n - 1);
      var before := set c | 0 <= c < n - 1 :: perm[c];
      assert (set c | 0 <= c < n :: perm[c]) == before + {perm[n - 1]};
      assert perm[n - 1] !in before;
    }
  }
}
