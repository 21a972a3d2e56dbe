/**
 The search heuristic: the sum, over the non-blank tiles, of the Manhattan
 distance between the tile's cell and the cell holding the same value in
 the goal grid.
 */
module Manhattan {
  import opened Board

  /** Cell (r, c) comes before cell (i, j) in row-major order. */
  predicate Before(i: int, j: int, r: int, c: int)
  {
    i < r || (i == r && j < c)
  }

  /** First cell, in row-major order, holding v; (-1, -1) when no cell does. */
  function FindPosition(v: int, g: Grid): (r: (int, int))
    ensures r == (-1, -1) <==> forall i, j :: ValidPosition(i, j) ==> g[i][j] != v
    ensures r != (-1, -1) ==> ValidPosition(r.0, r.1) && g[r.0][r.1] == v
    ensures r != (-1, -1) ==> forall i, j :: ValidPosition(i, j) && Before(i, j, r.0, r.1) ==> g[i][j] != v
  {
    FlatIndex();
    FindFrom(v, g, 0)
  }

  /** Scan of the cells from flat index n onwards. */
  function FindFrom(v: int, g: Grid, n: int): (r: (int, int))
    requires 0 <= n <= Cells
    ensures r == (-1, -1) <==> forall c :: n <= c < Cells ==> g[RowOf(c)][ColOf(c)] != v
    ensures r != (-1, -1) ==> n <= 3 * r.0 + r.1 < Cells && ValidPosition(r.0, r.1) && g[r.0][r.1] == v
    ensures r != (-1, -1) ==> forall c :: n <= c < 3 * r.0 + r.1 ==> g[RowOf(c)][ColOf(c)] != v
    decreases Cells - n
  {
    if n == Cells then (-1, -1)
    else if g[RowOf(n)][ColOf(n)] == v then (RowOf(n), ColOf(n))
    else FindFrom(v, g, n + 1)
  }

  /** Goal cell of each value: tile v in 1..8 at flat index v - 1, the
      blank at the bottom-right corner, any other value at (-1, -1), the
      answer of the position search when the goal grid lacks it. */
  function GoalCell(v: int): (int, int)
  {
    if 1 <= v <= 8 then (RowOf(v - 1), ColOf(v - 1))
    else if v == 0 then (2, 2)
    else (-1, -1)
  }

  /** The goal grid holds 3i+j+1 at cell (i, j), the blank at the bottom-right. */
  lemma GoalValue(i: int, j: int)
    requires ValidPosition(i, j)
    ensures Goal[i][j] == if i == 2 && j == 2 then 0 else 3 * i + j + 1
  {
  }

  /** The position search on the goal grid finds each value at its goal cell. */
  lemma GoalPosition(v: int)
    ensures FindPosition(v, Goal) == GoalCell(v)
  {
    var r := FindPosition(v, Goal);
    if 0 <= v <= 8 {
      var (i, j) := GoalCell(v);
      GoalValue(i, j);
      assert r != (-1, -1);
      GoalValue(r.0, r.1);
      FlatIndex();
    } else {
      forall i, j | ValidPosition(i, j)
        ensures Goal[i][j] != v
      {
        GoalValue(i, j);
      }
    }
  }

  /** Contribution of the value v sitting at cell (i, j): 0 for the blank,
      otherwise its row and column distance to its goal cell. */
  function TileDistance(v: int, i: int, j: int): (r: int)
    ensures r >= 0
    ensures v == 0 ==> r == 0
  {
    if v == 0 then 0
    else
      var (goalRow, goalCol) := GoalCell(v);
      Abs(i - goalRow) + Abs(j - goalCol)
  }

  /** The contribution is the distance to the cell the position search
      finds for v on the goal grid. */
  lemma TileDistanceFindsGoal(v: int, i: int, j: int)
    requires v != 0
    ensures TileDistance(v, i, j) ==
      Abs(i - FindPosition(v, Goal).0) + Abs(j - FindPosition(v, Goal).1)
  {
    GoalPosition(v);
  }

  /** Contribution of every cell of a row-major key, in order. */
  function Contributions(k: seq<int>): (r: seq<int>)
    ensures |r| == |k|
    ensures forall c :: 0 <= c < |k| ==> r[c] == TileDistance(k[c], RowOf(c), ColOf(c))
  {
    seq(|k|, c requires 0 <= c < |k| => TileDistance(k[c], RowOf(c), ColOf(c)))
  }

  function Sum(s: seq<int>): int
  {
    if |s| == 0 then 0 else s[0] + Sum(s[1..])
  }

  /** A sum of non-negative terms is non-negative, and 0 exactly when every term is. */
  lemma {:induction false} SumNonNegative(s: seq<int>)
    requires forall c :: 0 <= c < |s| ==> s[c] >= 0
    ensures Sum(s) >= 0
    ensures Sum(s) == 0 <==> forall c :: 0 <= c < |s| ==> s[c] == 0
  {
    if |s| > 0 {
      SumNonNegative(s[1..]);
      assert forall c :: 1 <= c < |s| ==> s[1..][c - 1] == s[c];
    }
  }

  /** Replacing one term changes the sum by the difference. */
  lemma {:induction false} SumUpdate(s: seq<int>, a: int, x: int)
    requires 0 <= a < |s|
    ensures Sum(s[a := x]) == Sum(s) - s[a] + x
  {
    if a > 0 {
      assert s[a := x][1..] == s[1..][a - 1 := x];
      SumUpdate(s[1..], a - 1, x);
    } else {
      assert s[a := x][1..] == s[1..];
    }
  }

  /** The heuristic of a grid: the sum of the contributions of its cells,
      visited row by row. */
  function Heuristic(g: Grid): (r: int)
    ensures r >= 0
  {
    SumNonNegative(Contributions(Key(g)));
    Sum(Contributions(Key(g)))
  }

  /** A tile contributes nothing exactly when it is the blank or sits on its goal cell. */
  lemma TileDistanceZero(v: int, i: int, j: int)
    requires ValidPosition(i, j)
    ensures TileDistance(v, i, j) == 0 <==> v == 0 || (1 <= v <= 8 && v == 3 * i + j + 1)
  {
  }

  lemma GoalKey()
    ensures Key(Goal) == [1, 2, 3, 4, 5, 6, 7, 8, 0]
  {
  }

  /** The heuristic is 0 exactly when every cell contributes nothing. */
  lemma HeuristicZero(g: Grid)
    ensures Heuristic(g) == 0 <==>
      forall c :: 0 <= c < Cells ==> TileDistance(Key(g)[c], RowOf(c), ColOf(c)) == 0
  {
    SumNonNegative(Contributions(Key(g)));
  }

  /** The heuristic is 0 on the goal grid. */
  lemma HeuristicGoal()
    ensures Heuristic(Goal) == 0
  {
    var k := Key(Goal);
    GoalKey();
    forall c | 0 <= c < Cells
      ensures TileDistance(k[c], RowOf(c), ColOf(c)) == 0
    {
      TileDistanceZero(k[c], RowOf(c), ColOf(c));
    }
    HeuristicZero(Goal);
  }

  /** On a grid holding each of 0..8 once, the heuristic is 0 exactly on the goal. */
  lemma HeuristicZeroIffGoal(g: Grid)
    requires IsTilePermutation(g)
    ensures Heuristic(g) == 0 <==> g == Goal
  {
    if g == Goal {
      HeuristicGoal();
    } else if Heuristic(g) == 0 {
      var k := Key(g);
      HeuristicZero(g);
      forall c | 0 <= c < Cells
        ensures k[c] == 0 || k[c] == c + 1
      {
        TileDistanceZero(k[c], RowOf(c), ColOf(c));
      }
      assert k[8] == 0;
      assert forall c :: 0 <= c < 8 ==> k[c] != k[8];
      GoalKey();
      assert k == Key(Goal);
      KeyInjective(g, Goal);
    }
  }

  /** A tile moved by one cell changes its distance to its goal cell by exactly one. */
  lemma NeighbourDistance(v: int, i: int, j: int, i2: int, j2: int)
    requires v != 0
    requires Abs(i - i2) + Abs(j - j2) == 1
    ensures TileDistance(v, i, j) - TileDistance(v, i2, j2) == 1
         || TileDistance(v, i, j) - TileDistance(v, i2, j2) == -1
  {
  }

  /** Moving tile t from cell b into the blank cell a changes the heuristic
      by the change of t's own distance. */
  lemma ExchangeDistance(g: Grid, h: Grid, a: int, b: int)
    requires 0 <= a < Cells && 0 <= b < Cells && a != b
    requires Key(g)[a] == 0 && Key(h) == Key(g)[a := Key(g)[b]][b := 0]
    ensures Heuristic(h) - Heuristic(g) ==
      TileDistance(Key(g)[b], RowOf(a), ColOf(a)) - TileDistance(Key(g)[b], RowOf(b), ColOf(b))
  {
    var k, k2 := Key(g), Key(h);
    var s, s2 := Contributions(k), Contributions(k2);
    var t := k[b];
    assert s2 == s[a := TileDistance(t, RowOf(a), ColOf(a))][b := 0];
    SumUpdate(s, a, TileDistance(t, RowOf(a), ColOf(a)));
    SumUpdate(s[a := TileDistance(t, RowOf(a), ColOf(a))], b, 0);
  }

  /** Every slide of the blank changes the heuristic by exactly one. */
  lemma SlideChangesHeuristicByOne(p: Puzzle, c: Puzzle)
    requires HoldsBlank(p) && Distinct(Key(p.grid))
    requires IsChild(p, c)
    ensures Heuristic(c.grid) == Heuristic(p.grid) + 1 || Heuristic(c.grid) == Heuristic(p.grid) - 1
  {
    var g := p.grid;
    var r1, c1, r2, c2 := p.blankRow, p.blankCol, c.blankRow, c.blankCol;
    var a, b := 3 * r1 + c1, 3 * r2 + c2;
    FlatIndex();
    KeySwap(g, r1, c1, r2, c2);
    var t := Key(g)[b];
    assert Key(g)[a] == 0 && t == g[r2][c2] && t != 0;
    ExchangeDistance(g, c.grid, a, b);
    NeighbourDistance(t, r1, c1, r2, c2);
  }

  /** Blank one cell above its goal corner, tile 6 one row below its goal: distance 1. */
  lemma HeuristicExample()
    ensures Heuristic([[1, 2, 3], [4, 5, 0], [7, 8, 6]]) == 1
  {
    var h: Grid := [[1, 2, 3], [4, 5, 0], [7, 8, 6]];
    GoalKey();
    assert Key(h) == Key(Goal)[8 := 6][5 := 0];
    HeuristicGoal();
    ExchangeDistance(Goal, h, 8, 5);
  }
}
