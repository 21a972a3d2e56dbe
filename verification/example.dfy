/**
 A run of the greedy search from a state one slide away from the goal: the
 first pop expands the root, and whichever minimal entry the second pop
 takes is the goal child, so the solution path holds the goal grid twice,
 once as the child's own grid and once more appended on success.
 */
module SearchExample {
  import opened Board
  import opened Manhattan
  import opened GreedySearch

  /** Popping a goal entry returns its path extended by the goal. */
  lemma GoalPop(f: Frontier, i: int)
    requires IsMinimal(f.queue, i) && Expandable(f.queue[i].state)
    requires f.queue[i].state.grid == Goal
    ensures Pop(f, i) == Found(f.queue[i].state.path + [Goal])
  {
  }

  /** A minimal entry of a queue of children that holds the goal child
      with priority 0 is a goal child itself. */
  lemma GoalChildPopped(root: Puzzle, q: seq<Entry>, c: Puzzle, i: int)
    requires WellFormed(root)
    requires Entry(c, 0) in q
    requires forall e :: e in q ==> e.state in Adjacent(root) && e.priority == Heuristic(e.state.grid)
    requires IsMinimal(q, i)
    ensures q[i].state.grid == Goal && q[i].state.path == root.path + [Goal]
    ensures Expandable(q[i].state)
  {
    var e := q[i];
    assert e.priority <= 0 by {
      var k :| 0 <= k < |q| && q[k] == Entry(c, 0);
    }
    assert e in q;
    ChildInvariants(root, e.state);
    HeuristicZeroIffGoal(e.state.grid);
  }

  /** From a well-formed root whose children include the goal, the first pop
      continues, and every entry the second pop may take is the goal child:
      the search returns the root's path followed by the goal twice. */
  lemma OneSlideSolution(root: Puzzle)
    requires WellFormed(root) && root.grid != Goal
    requires exists c :: c in Adjacent(root) && c.grid == Goal
    ensures IsMinimal(Initial(root).queue, 0)
    ensures Pop(Initial(root), 0).Continue?
    ensures forall i :: IsMinimal(Pop(Initial(root), 0).next.queue, i) ==>
      Expandable(Pop(Initial(root), 0).next.queue[i].state) &&
      Pop(Pop(Initial(root), 0).next, i) == Found(root.path + [Goal] + [Goal])
  {
    var f := Initial(root);
    assert IsMinimal(f.queue, 0);
    var next := Pop(f, 0).next;
    assert next.queue == Pushed(f, 0);
    var c :| c in Adjacent(root) && c.grid == Goal;
    KeyInjective(root.grid, Goal);
    HeuristicGoal();
    assert Entry(c, 0) in next.queue;
    forall i | IsMinimal(next.queue, i)
      ensures Expandable(next.queue[i].state) && Pop(next, i) == Found(root.path + [Goal] + [Goal])
    {
      GoalChildPopped(root, next.queue, c, i);
      GoalPop(next, i);
    }
  }

  /** Blank one row above its goal corner, tile 6 below it. */
  const Near: Grid := [[1, 2, 3], [4, 5, 0], [7, 8, 6]]

  const Up: Grid := [[1, 2, 0], [4, 5, 3], [7, 8, 6]]

  const Left: Grid := [[1, 2, 3], [4, 0, 5], [7, 8, 6]]

  /** Grids agreeing on every cell are equal. */
  lemma SameCells(g: Grid, h: Grid)
    requires forall i, j :: ValidPosition(i, j) ==> g[i][j] == h[i][j]
    ensures g == h
  {
    assert g[0] == h[0] && g[1] == h[1] && g[2] == h[2];
  }

  /** Entries are pairwise different when each has its own position in pos. */
  lemma DistinctByPosition(s: seq<int>, pos: seq<int>)
    requires forall c :: 0 <= c < |s| ==> 0 <= s[c] < |pos| && pos[s[c]] == c
    ensures Distinct(s)
  {
  }

  /** The state with grid Near and the blank at (1, 2) is well-formed and
      not the goal. */
  lemma NearWellFormed(root: Puzzle)
    requires root == Puzzle(Near, 1, 2, [])
    ensures WellFormed(root) && root.grid != Goal
  {
    assert Key(Near) == [1, 2, 3, 4, 5, 0, 7, 8, 6];
    DistinctByPosition(Key(Near), [5, 0, 1, 2, 3, 4, 8, 6, 7]);
    assert Near[1][2] != Goal[1][2];
  }

  /** The children of the state with grid Near and the blank at (1, 2), in
      move order (blank down, up, left; right is off the board); the first
      is the goal, so the search from it returns the goal twice. */
  lemma NearChildren(root: Puzzle)
    requires root == Puzzle(Near, 1, 2, [])
    ensures Adjacent(root) == [Puzzle(Goal, 2, 2, [Goal]), Puzzle(Up, 0, 2, [Up]), Puzzle(Left, 1, 1, [Left])]
  {
    SameCells(Swap(Near, 1, 2, 2, 2), Goal);
    SameCells(Swap(Near, 1, 2, 0, 2), Up);
    SameCells(Swap(Near, 1, 2, 1, 1), Left);
    assert TargetRow(root, 0) == 2 && TargetCol(root, 0) == 2;
    assert TargetRow(root, 1) == 0 && TargetCol(root, 1) == 2;
    assert TargetRow(root, 2) == 1 && TargetCol(root, 2) == 3;
    assert TargetRow(root, 3) == 1 && TargetCol(root, 3) == 1;
    assert [] + [Goal] == [Goal] && [] + [Up] == [Up] && [] + [Left] == [Left];
  }

  /** That state meets the premises of the one-slide run, its goal child
      coming first; from it the search returns [] + [Goal] + [Goal]. */
  lemma NearOneSlide(root: Puzzle)
    requires root == Puzzle(Near, 1, 2, [])
    ensures WellFormed(root) && root.grid != Goal
    ensures Adjacent(root)[0] == Puzzle(Goal, 2, 2, [Goal])
    ensures exists c :: c in Adjacent(root) && c.grid == Goal
  {
    NearWellFormed(root);
    NearChildren(root);
    assert Adjacent(root)[0] in Adjacent(root);
  }
}
