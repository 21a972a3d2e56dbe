/**
 The solvability oracle: a grid can reach the goal by blank slides when the
 number of inversions among its non-blank tiles, read row-major, is even
 (the parity test for sliding puzzles of odd width).
 */
module Solvability {
  import opened Board

  /** Number of non-blank entries of t smaller than v; 0 when v is the blank. */
  function Smaller(v: int, t: seq<int>): nat
  {
    if |t| == 0 then 0
    else Smaller(v, t[..|t| - 1]) + (if v != 0 && t[|t| - 1] != 0 && v > t[|t| - 1] then 1 else 0)
  }

  /** Number of pairs i < j with s[i] and s[j] both non-blank and s[i] > s[j]:
      for each position, the non-blank entries after it that are smaller. */
  function Inversions(s: seq<int>): nat
  {
    if |s| == 0 then 0 else Smaller(s[0], s[1..]) + Inversions(s[1..])
  }

  /** The oracle's verdict as a property of the grid. */
  predicate Solvable(g: Grid)
  {
    Inversions(Key(g)) % 2 == 0
  }

  lemma {:induction false} SmallerBlank(t: seq<int>)
    ensures Smaller(0, t) == 0
  {
    if |t| > 0 {
      SmallerBlank(t[..|t| - 1]);
    }
  }

  /** The oracle: flatten the grid row by row, count its inversions, accept
      an even count. */
  method IsSolvable(g: Grid) returns (solvable: bool)
    ensures solvable <==> Inversions(Key(g)) % 2 == 0
    ensures solvable <==> |InversionPairs(Key(g))| % 2 == 0
  {
    InversionsCountPairs(Key(g));
    var linear := Flatten(g);
    var inversions := CountInversions(linear);
    solvable := inversions % 2 == 0;
  }

  /** The row-by-row copy of the grid into one sequence. */
  method Flatten(g: Grid) returns (linear: seq<int>)
    ensures linear == Key(g)
  {
    linear := [];
    for i := 0 to Size
      invariant linear == Key(g)[..Size * i]
    {
      for j := 0 to Size
        invariant linear == Key(g)[..Size * i + j]
      {
        linear := linear + [g[i][j]];
      }
    }
  }

  /** The outer scan: for each non-blank entry, add the count of smaller
      non-blank entries after it. */
  method CountInversions(linear: seq<int>) returns (inversions: int)
    ensures inversions == Inversions(linear)
  {
    inversions := 0;
    for i := 0 to |linear|
      invariant inversions + Inversions(linear[i..]) == Inversions(linear)
    {
      assert linear[i..][1..] == linear[i + 1..];
      if linear[i] == 0 {
        SmallerBlank(linear[i + 1..]);
        continue;
      }
      var count := CountSmallerAfter(linear, i);
      inversions := inversions + count;
    }
  }

  /** The inner scan: the non-blank entries after position i smaller than
      the entry at i. */
  method CountSmallerAfter(linear: seq<int>, i: int) returns (count: int)
    requires 0 <= i < |linear| && linear[i] != 0
    ensures count == Smaller(linear[i], linear[i + 1..])
  {
    count := 0;
    for j := i + 1 to |linear|
      invariant count == Smaller(linear[i], linear[i + 1..j])
    {
      assert linear[i + 1..j + 1][..j - i - 1] == linear[i + 1..j];
      if linear[j] == 0 {
        continue;
      }
      if linear[i] > linear[j] {
        count := count + 1;
      }
    }
    assert linear[i + 1..|linear|] == linear[i + 1..];
  }

  // The count as the size of a set of index pairs.

  /** The inversions of s as index pairs: i < j, both entries non-blank, the
      earlier one larger. */
  ghost function InversionPairs(s: seq<int>): set<(int, int)>
  {
    set i, j | 0 <= i < j < |s| && s[i] != 0 && s[j] != 0 && s[i] > s[j] :: (i, j)
  }

  /** The pairs (i, n) for the positions i of p whose non-blank entry is
      larger than a non-blank b: the inversions b closes at position n. */
  ghost function PairsClosedBy(p: seq<int>, b: int, n: int): set<(int, int)>
  {
    set i | 0 <= i < |p| && p[i] != 0 && b != 0 && p[i] > b :: (i, n)
  }

  /** The entries of p larger than b, counted against the one-entry tail [b]. */
  lemma {:induction false} CrossLast(p: seq<int>, b: int, n: int)
    ensures Cross(p, [b]) == |PairsClosedBy(p, b, n)|
    decreases |p|
  {
    if |p| > 0 {
      var m := |p| - 1;
      assert p == p[..m] + [p[m]];
      CrossConcatLeft(p[..m], [p[m]], [b]);
      CrossSingle(p[m], [b]);
      SmallerSingle(p[m], b);
      CrossLast(p[..m], b, n);
      assert (m, n) !in PairsClosedBy(p[..m], b, n);
      assert PairsClosedBy(p, b, n) ==
        PairsClosedBy(p[..m], b, n) + (if p[m] != 0 && b != 0 && p[m] > b then {(m, n)} else {});
    }
  }

  /** The inversion pairs of p + [b]: those of p, and those b closes. */
  lemma PairsSplit(p: seq<int>, b: int)
    ensures InversionPairs(p + [b]) == InversionPairs(p) + PairsClosedBy(p, b, |p|)
  {
  }

  /** The recursive count is the number of inversion pairs. */
  lemma {:induction false} InversionsCountPairs(s: seq<int>)
    ensures Inversions(s) == |InversionPairs(s)|
    decreases |s|
  {
    if |s| > 0 {
      var n := |s| - 1;
      var p, b := s[..n], s[n];
      assert s == p + [b];
      InversionsConcat(p, [b]);
      assert Inversions([b]) == 0 by {
        assert [b][1..] == [];
      }
      CrossLast(p, b, n);
      InversionsCountPairs(p);
      PairsSplit(p, b);
      assert InversionPairs(p) !! PairsClosedBy(p, b, n);
    }
  }

  // Decomposition of the count over concatenations.

  /** Number of pairs (a, b) with a taken from s, b from t, both non-blank and a > b. */
  function Cross(s: seq<int>, t: seq<int>): nat
  {
    if |s| == 0 then 0 else Smaller(s[0], t) + Cross(s[1..], t)
  }

  lemma {:induction false} SmallerConcat(v: int, t: seq<int>, u: seq<int>)
    ensures Smaller(v, t + u) == Smaller(v, t) + Smaller(v, u)
    decreases |u|
  {
    if |u| > 0 {
      assert (t + u)[..|t + u| - 1] == t + u[..|u| - 1];
      SmallerConcat(v, t, u[..|u| - 1]);
    } else {
      assert t + u == t;
    }
  }

  lemma {:induction false} CrossConcatRight(s: seq<int>, t: seq<int>, u: seq<int>)
    ensures Cross(s, t + u) == Cross(s, t) + Cross(s, u)
  {
    if |s| > 0 {
      SmallerConcat(s[0], t, u);
      CrossConcatRight(s[1..], t, u);
    }
  }

  lemma {:induction false} CrossConcatLeft(s: seq<int>, t: seq<int>, u: seq<int>)
    ensures Cross(s + t, u) == Cross(s, u) + Cross(t, u)
  {
    if |s| > 0 {
      assert (s + t)[1..] == s[1..] + t;
      CrossConcatLeft(s[1..], t, u);
    } else {
      assert s + t == t;
    }
  }

  lemma {:induction false} InversionsConcat(s: seq<int>, t: seq<int>)
    ensures Inversions(s + t) == Inversions(s) + Cross(s, t) + Inversions(t)
  {
    if |s| > 0 {
      assert (s + t)[1..] == s[1..] + t;
      SmallerConcat(s[0], s[1..], t);
      InversionsConcat(s[1..], t);
    } else {
      assert s + t == t;
    }
  }

  lemma SmallerSingle(v: int, b: int)
    ensures Smaller(v, [b]) == (if v != 0 && b != 0 && v > b then 1 else 0)
  {
    assert [b][..0] == [];
  }

  lemma CrossSingle(a: int, t: seq<int>)
    ensures Cross([a], t) == Smaller(a, t)
  {
    assert [a][1..] == [];
  }

  /** Against a non-blank value b that differs from every entry of m, each
      non-blank entry of m is either larger or smaller than b. */
  lemma {:induction false} CrossPlusSmaller(m: seq<int>, b: int)
    requires b != 0
    requires forall x :: x in m ==> x != 0 && x != b
    ensures Cross(m, [b]) + Smaller(b, m) == |m|
  {
    if |m| > 0 {
      assert m == [m[0]] + m[1..];
      assert forall x :: x in m[1..] ==> x in m;
      CrossPlusSmaller(m[1..], b);
      SmallerSingle(m[0], b);
      SmallerConcat(b, [m[0]], m[1..]);
      SmallerSingle(b, m[0]);
      assert Smaller(b, m) == Smaller(b, [m[0]]) + Smaller(b, m[1..]);
      assert m[0] in m;
    }
  }

  /** The order of the three parts a, m, b does not matter to a value
      compared against all of them. */
  lemma SmallerBlock(v: int, a: int, m: seq<int>, b: int)
    ensures Smaller(v, [a] + m + [b]) == Smaller(v, [b] + m + [a])
  {
    SmallerConcat(v, [a] + m, [b]);
    SmallerConcat(v, [a], m);
    SmallerConcat(v, [b] + m, [a]);
    SmallerConcat(v, [b], m);
  }

  /** Nor does it matter to the values after the block. */
  lemma CrossBlock(a: int, m: seq<int>, b: int, q: seq<int>)
    ensures Cross([a] + m + [b], q) == Cross([b] + m + [a], q)
  {
    CrossConcatLeft([a] + m, [b], q);
    CrossConcatLeft([a], m, q);
    CrossConcatLeft([b] + m, [a], q);
    CrossConcatLeft([b], m, q);
  }

  /** Reordering a block so that neither the values before it nor the values
      after it see a difference changes the count only inside the block. */
  lemma ReorderBlock(p: seq<int>, mid1: seq<int>, mid2: seq<int>, q: seq<int>)
    requires forall v :: Smaller(v, mid1) == Smaller(v, mid2)
    requires Cross(mid1, q) == Cross(mid2, q)
    ensures Inversions(p + mid1 + q) - Inversions(mid1) == Inversions(p + mid2 + q) - Inversions(mid2)
  {
    assert p + mid1 + q == p + (mid1 + q);
    assert p + mid2 + q == p + (mid2 + q);
    InversionsConcat(p, mid1 + q);
    InversionsConcat(p, mid2 + q);
    CrossConcatRight(p, mid1, q);
    CrossConcatRight(p, mid2, q);
    InversionsConcat(mid1, q);
    InversionsConcat(mid2, q);
    CrossSame(p, mid1, mid2);
  }

  /** Inside the block: the tile b passes each entry of m, which changes the
      count by one per entry. */
  lemma InsideBlock(m: seq<int>, b: int)
    requires b != 0
    requires forall x :: x in m ==> x != 0 && x != b
    ensures Inversions([0] + m + [b]) + 2 * Smaller(b, m) == Inversions([b] + m + [0]) + |m|
  {
    assert [0] + m + [b] == [0] + (m + [b]);
    assert [b] + m + [0] == [b] + (m + [0]);
    InversionsConcat([0], m + [b]);
    InversionsConcat(m, [b]);
    InversionsConcat([b], m + [0]);
    InversionsConcat(m, [0]);
    CrossSingle(0, m + [b]);
    CrossSingle(b, m + [0]);
    SmallerBlank(m + [b]);
    SmallerConcat(b, m, [0]);
    SmallerSingle(b, 0);
    CrossZeroRight(m);
    CrossPlusSmaller(m, b);
    assert Inversions([0]) == 0 && Inversions([b]) == 0 by {
      assert [0][1..] == [] && [b][1..] == [];
    }
  }

  /** Exchanging the blank with a tile b separated from it by a block m of
      other tiles keeps the parity of the count when m has even length. */
  lemma ExchangeAcrossBlock(p: seq<int>, m: seq<int>, b: int, q: seq<int>)
    requires b != 0
    requires forall x :: x in m ==> x != 0 && x != b
    requires |m| % 2 == 0
    ensures Inversions(p + [0] + m + [b] + q) % 2 == Inversions(p + [b] + m + [0] + q) % 2
  {
    var mid1, mid2 := [0] + m + [b], [b] + m + [0];
    assert p + [0] + m + [b] + q == p + mid1 + q;
    assert p + [b] + m + [0] + q == p + mid2 + q;
    forall v | true
      ensures Smaller(v, mid1) == Smaller(v, mid2)
    {
      SmallerBlock(v, 0, m, b);
    }
    CrossBlock(0, m, b, q);
    ReorderBlock(p, mid1, mid2, q);
    InsideBlock(m, b);
  }

  lemma {:induction false} CrossSame(p: seq<int>, t: seq<int>, u: seq<int>)
    requires forall v :: Smaller(v, t) == Smaller(v, u)
    ensures Cross(p, t) == Cross(p, u)
  {
    if |p| > 0 {
      CrossSame(p[1..], t, u);
    }
  }

  lemma {:induction false} CrossZeroRight(m: seq<int>)
    ensures Cross(m, [0]) == 0
  {
    if |m| > 0 {
      SmallerSingle(m[0], 0);
      CrossZeroRight(m[1..]);
    }
  }

  /** A sequence around two positions lo < hi, before and after exchanging them. */
  lemma Split(k: seq<int>, lo: int, hi: int)
    requires 0 <= lo < hi < |k|
    ensures k == k[..lo] + [k[lo]] + k[lo + 1..hi] + [k[hi]] + k[hi + 1..]
    ensures k[lo := k[hi]][hi := k[lo]] == k[..lo] + [k[hi]] + k[lo + 1..hi] + [k[lo]] + k[hi + 1..]
  {
  }

  /** Exchanging the blank at position ib with the entry one or three places
      away keeps the parity of the count, provided the entries are distinct. */
  lemma ExchangeKeepsParity(k: seq<int>, ib: int, it: int)
    requires Distinct(k)
    requires 0 <= ib < |k| && 0 <= it < |k| && k[ib] == 0
    requires it - ib == 1 || it - ib == -1 || it - ib == 3 || it - ib == -3
    ensures Inversions(k[ib := k[it]][it := 0]) % 2 == Inversions(k) % 2
  {
    var t := k[it];
    if ib < it {
      Split(k, ib, it);
      var m := k[ib + 1..it];
      assert forall x :: x in m ==> x != 0 && x != t;
      ExchangeAcrossBlock(k[..ib], m, t, k[it + 1..]);
    } else {
      Split(k, it, ib);
      var m := k[it + 1..ib];
      assert forall x :: x in m ==> x != 0 && x != t;
      assert k[ib := t][it := 0] == k[it := 0][ib := t];
      ExchangeAcrossBlock(k[..it], m, t, k[ib + 1..]);
    }
  }

  /** One legal slide of the blank never changes the oracle's verdict: a
      horizontal slide keeps the row-major order of the tiles, a vertical
      one moves a single tile past exactly two others. */
  lemma SlideKeepsSolvability(p: Puzzle, c: Puzzle)
    requires HoldsBlank(p) && Distinct(Key(p.grid))
    requires IsChild(p, c)
    ensures Solvable(c.grid) <==> Solvable(p.grid)
  {
    var k := Key(p.grid);
    KeySwap(p.grid, p.blankRow, p.blankCol, c.blankRow, c.blankCol);
    var ib, it := 3 * p.blankRow + p.blankCol, 3 * c.blankRow + c.blankCol;
    assert k[ib] == 0;
    ExchangeKeepsParity(k, ib, it);
  }

  /** Every neighbour produced by the expansion has the verdict of its parent. */
  lemma AdjacentKeepSolvability(p: Puzzle)
    requires HoldsBlank(p) && Distinct(Key(p.grid))
    ensures forall c :: c in Adjacent(p) ==> (Solvable(c.grid) <==> Solvable(p.grid))
  {
    forall c | c in Adjacent(p)
      ensures Solvable(c.grid) <==> Solvable(p.grid)
    {
      SlideKeepsSolvability(p, c);
    }
  }

  /** No entry after v is smaller than v. */
  lemma {:induction false} SmallerNone(v: int, t: seq<int>)
    requires forall j :: 0 <= j < |t| && t[j] != 0 ==> v <= t[j]
    ensures Smaller(v, t) == 0
  {
    if |t| > 0 {
      SmallerNone(v, t[..|t| - 1]);
    }
  }

  /** Non-blank entries in increasing order leave no inversion. */
  lemma {:induction false} IncreasingNoInversions(s: seq<int>)
    requires forall i, j :: 0 <= i < j < |s| && s[i] != 0 && s[j] != 0 ==> s[i] < s[j]
    ensures Inversions(s) == 0
  {
    if |s| > 0 {
      if s[0] == 0 {
        SmallerBlank(s[1..]);
      } else {
        SmallerNone(s[0], s[1..]);
      }
      IncreasingNoInversions(s[1..]);
    }
  }

  /** The goal grid is accepted. */
  lemma GoalSolvable()
    ensures Solvable(Goal)
  {
    assert Key(Goal) == [1, 2, 3, 4, 5, 6, 7, 8, 0];
    IncreasingNoInversions(Key(Goal));
  }

  /** Two non-blank entries out of order in front of an increasing tail of
      larger entries make exactly one inversion. */
  lemma OneInversion(hi: int, lo: int, tail: seq<int>)
    requires 0 < lo < hi
    requires forall j :: 0 <= j < |tail| && tail[j] != 0 ==> hi < tail[j]
    requires forall i, j :: 0 <= i < j < |tail| && tail[i] != 0 && tail[j] != 0 ==> tail[i] < tail[j]
    ensures Inversions([hi] + ([lo] + tail)) == 1
  {
    var k := [hi] + ([lo] + tail);
    assert k[0] == hi && k[1..] == [lo] + tail;
    assert Inversions(k) == Smaller(hi, [lo] + tail) + Inversions([lo] + tail);
    IncreasingNoInversions([lo] + tail);
    SmallerConcat(hi, [lo], tail);
    SmallerSingle(hi, lo);
    SmallerNone(hi, tail);
  }

  /** The goal with tiles 1 and 2 exchanged has one inversion and is refused. */
  lemma SwappedGoalUnsolvable()
    ensures !Solvable([[2, 1, 3], [4, 5, 6], [7, 8, 0]])
  {
    var tail := [3, 4, 5, 6, 7, 8, 0];
    assert Key([[2, 1, 3], [4, 5, 6], [7, 8, 0]]) == [2] + ([1] + tail);
    OneInversion(2, 1, tail);
  }
}
