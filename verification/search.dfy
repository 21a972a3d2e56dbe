/**
 Greedy best-first search: a priority queue ordered by the heuristic alone
 and a set of visited keys. A grid is marked visited when its entry is
 popped; the children of a popped state are pushed unless their grid is
 already visited. An entry is not checked against the visited set when it
 is popped, so a grid pushed twice before its first pop is expanded twice.
 */
module GreedySearch {
  import opened Board
  import opened Manhattan

  /** A queued state with the heuristic computed when it was pushed. */
  datatype Entry = Entry(state: Puzzle, priority: int)

  /** The queue of pending entries and the keys of the grids popped so far. */
  datatype Frontier = Frontier(queue: seq<Entry>, visited: set<seq<int>>)

  /** Outcome of one pop: the solution path, or the frontier to continue with. */
  datatype Step = Found(path: seq<Grid>) | Continue(next: Frontier)

  /** Entry i has the least priority of the queue: what the min-heap pops.
      Which of several minimal entries it pops is left open. */
  predicate IsMinimal(q: seq<Entry>, i: int)
  {
    0 <= i < |q| && forall j :: 0 <= j < |q| ==> q[i].priority <= q[j].priority
  }

  lemma {:induction false} MinimalExists(q: seq<Entry>)
    requires |q| > 0
    ensures exists i :: IsMinimal(q, i)
  {
    if |q| > 1 {
      MinimalExists(q[1..]);
      var i :| IsMinimal(q[1..], i);
      if q[0].priority <= q[i + 1].priority {
        assert IsMinimal(q, 0);
      } else {
        assert IsMinimal(q, i + 1);
      }
    } else {
      assert IsMinimal(q, 0);
    }
  }

  /** The queue without its entry i. */
  function Remove(q: seq<Entry>, i: int): (r: seq<Entry>)
    requires 0 <= i < |q|
    ensures |r| == |q| - 1
    ensures multiset(r) + multiset{q[i]} == multiset(q)
  {
    assert q == q[..i] + [q[i]] + q[i + 1..];
    q[..i] + q[i + 1..]
  }

  /** The entries pushed for the given children, in order: one per child
      whose grid is not visited, with its heuristic as priority. */
  function Pushes(children: seq<Puzzle>, visited: set<seq<int>>): (r: seq<Entry>)
    ensures forall e :: e in r ==> e.state in children && Key(e.state.grid) !in visited
    ensures forall e :: e in r ==> e.priority == Heuristic(e.state.grid)
    ensures forall c :: c in children && Key(c.grid) !in visited ==> Entry(c, Heuristic(c.grid)) in r
    ensures forall c: Puzzle ::
      multiset(r)[Entry(c, Heuristic(c.grid))] == (if Key(c.grid) in visited then 0 else multiset(children)[c])
  {
    if |children| == 0 then []
    else
      var rest := Pushes(children[1..], visited);
      assert children == [children[0]] + children[1..];
      if Key(children[0].grid) in visited then rest
      else [Entry(children[0], Heuristic(children[0].grid))] + rest
  }

  /** The frontier before the first pop: the root alone, nothing visited. */
  function Initial(root: Puzzle): Frontier
  {
    Frontier([Entry(root, Heuristic(root.grid))], {})
  }

  /** One iteration of the search loop on the popped entry i: mark its grid
      visited; on the goal, return its path extended by the goal; otherwise
      push its unvisited children. */
  function Pop(f: Frontier, i: int): (r: Step)
    requires IsMinimal(f.queue, i) && Expandable(f.queue[i].state)
    ensures r.Found? <==> f.queue[i].state.grid == Goal
    ensures r.Found? ==> r.path == f.queue[i].state.path + [Goal]
    ensures r.Continue? ==> r.next.visited == f.visited + {Key(f.queue[i].state.grid)}
    ensures r.Continue? ==> forall e :: e in r.next.queue ==>
      e in Remove(f.queue, i) || (e.state in Adjacent(f.queue[i].state) && Key(e.state.grid) !in r.next.visited)
    ensures r.Continue? ==> forall e :: e in Remove(f.queue, i) ==> e in r.next.queue
    ensures r.Continue? ==> forall c :: (c in Adjacent(f.queue[i].state) && Key(c.grid) !in r.next.visited ==>
      Entry(c, Heuristic(c.grid)) in r.next.queue)
    ensures r.Continue? ==> (multiset(r.next.queue) ==
      multiset(Remove(f.queue, i)) + multiset(Pushes(Adjacent(f.queue[i].state), r.next.visited)))
  {
    var e := f.queue[i];
    var visited := f.visited + {Key(e.state.grid)};
    if IsFinal(e.state.grid) then Found(e.state.path + [e.state.grid])
    else Continue(Frontier(Remove(f.queue, i) + Pushes(Adjacent(e.state), visited), visited))
  }

  /** The entries the pop of entry i pushes. */
  function Pushed(f: Frontier, i: int): seq<Entry>
    requires 0 <= i < |f.queue| && Expandable(f.queue[i].state)
  {
    Pushes(Adjacent(f.queue[i].state), f.visited + {Key(f.queue[i].state.grid)})
  }

  // ---------------------------------------------------------------------
  // Paths

  /** h is g with the cell holding v moved to an orthogonally adjacent cell
      (for v = 0: one slide of the blank). */
  ghost predicate Slides(g: Grid, h: Grid, v: int)
  {
    exists r1, c1, r2, c2 ::
      && ValidPosition(r1, c1) && ValidPosition(r2, c2)
      && Abs(r1 - r2) + Abs(c1 - c2) == 1
      && g[r1][c1] == v
      && h == Swap(g, r1, c1, r2, c2)
  }

  /** Each grid of cs is one slide away from the one before it, the first
      from start. */
  ghost predicate SlideChain(start: Grid, cs: seq<Grid>, v: int)
    decreases |cs|
  {
    |cs| == 0 || (Slides(start, cs[0], v) && SlideChain(cs[0], cs[1..], v))
  }

  /** The value at the root's blank coordinates (0 for a generated root). */
  function BlankValue(root: Puzzle): int
    requires ValidPosition(root.blankRow, root.blankCol)
  {
    root.grid[root.blankRow][root.blankCol]
  }

  /** p was produced by expansions starting at root: its path is the root's
      path followed by a chain of slides from the root grid ending in p's
      own grid, the root grid never reappearing on it. */
  ghost predicate Descends(root: Puzzle, p: Puzzle)
  {
    && ValidPosition(root.blankRow, root.blankCol)
    && ValidPosition(p.blankRow, p.blankCol)
    && p.grid[p.blankRow][p.blankCol] == BlankValue(root)
    && |p.path| > |root.path|
    && p.path[..|root.path|] == root.path
    && p.path[|p.path| - 1] == p.grid
    && SlideChain(root.grid, p.path[|root.path|..], BlankValue(root))
    && root.grid !in p.path[|root.path|..]
  }

  /** Shape of a path returned for a root that is not the goal: the root's
      path, then a chain of slides from the root grid ending in the goal,
      then the goal once more; the root grid does not reappear. */
  ghost predicate SolutionShape(root: Puzzle, path: seq<Grid>)
  {
    && ValidPosition(root.blankRow, root.blankCol)
    && |path| >= |root.path| + 2
    && path[..|root.path|] == root.path
    && path[|path| - 2] == Goal && path[|path| - 1] == Goal
    && SlideChain(root.grid, path[|root.path|..|path| - 1], BlankValue(root))
    && root.grid !in path[|root.path|..]
  }

  lemma ChildSlides(p: Puzzle, c: Puzzle)
    requires IsChild(p, c)
    ensures Slides(p.grid, c.grid, p.grid[p.blankRow][p.blankCol])
  {
    var r1, c1, r2, c2 := p.blankRow, p.blankCol, c.blankRow, c.blankCol;
    assert ValidPosition(r1, c1) && ValidPosition(r2, c2)
      && Abs(r1 - r2) + Abs(c1 - c2) == 1
      && p.grid[r1][c1] == p.grid[p.blankRow][p.blankCol]
      && c.grid == Swap(p.grid, r1, c1, r2, c2);
  }

  lemma {:induction false} SlideChainAppend(start: Grid, cs: seq<Grid>, x: Grid, v: int)
    requires SlideChain(start, cs, v)
    requires Slides(if |cs| == 0 then start else cs[|cs| - 1], x, v)
    ensures SlideChain(start, cs + [x], v)
    decreases |cs|
  {
    if |cs| > 0 {
      assert (cs + [x])[1..] == cs[1..] + [x];
      SlideChainAppend(cs[0], cs[1..], x, v);
    }
  }

  lemma AppendSlices<T>(a: seq<T>, x: T, n: int)
    requires 0 <= n <= |a|
    ensures (a + [x])[..n] == a[..n]
    ensures (a + [x])[n..] == a[n..] + [x]
  {
  }

  /** The slides recorded after the root's path, extended by one child. */
  lemma ChildChain(root: Puzzle, p: Puzzle, c: Puzzle)
    requires ValidPosition(root.blankRow, root.blankCol)
    requires p == root || Descends(root, p)
    requires IsChild(p, c)
    ensures |c.path| > |root.path|
    ensures c.path[|root.path|..] == p.path[|root.path|..] + [c.grid]
    ensures SlideChain(root.grid, c.path[|root.path|..], BlankValue(root))
  {
    ChildInvariants(p, c);
    ChildSlides(p, c);
    var n := |root.path|;
    AppendSlices(p.path, c.grid, n);
    var cs := p.path[n..];
    if p == root {
      assert cs == [];
    } else {
      assert cs[|cs| - 1] == p.grid;
    }
    SlideChainAppend(root.grid, cs, c.grid, BlankValue(root));
  }

  lemma ChildDescends(root: Puzzle, p: Puzzle, c: Puzzle)
    requires ValidPosition(root.blankRow, root.blankCol)
    requires p == root || Descends(root, p)
    requires IsChild(p, c) && c.grid != root.grid
    ensures Descends(root, c)
  {
    ChildInvariants(p, c);
    ChildChain(root, p, c);
    AppendSlices(p.path, c.grid, |root.path|);
  }

  // ---------------------------------------------------------------------
  // Termination measure

  /** The values on the root grid. */
  ghost function Values(g: Grid): set<int>
  {
    set c | 0 <= c < Cells :: Key(g)[c]
  }

  /** Every sequence of n values drawn from vs: finite, and for n = 9 it holds
      the key of every grid made of the root's tiles. */
  ghost function KeysOver(vs: set<int>, n: nat): set<seq<int>>
  {
    if n == 0 then {[]}
    else set s, x | s in KeysOver(vs, n - 1) && x in vs :: s + [x]
  }

  lemma {:induction false} InKeysOver(k: seq<int>, vs: set<int>)
    requires forall c :: 0 <= c < |k| ==> k[c] in vs
    ensures k in KeysOver(vs, |k|)
  {
    if |k| > 0 {
      var s, x := k[..|k| - 1], k[|k| - 1];
      InKeysOver(s, vs);
      assert k == s + [x];
    }
  }

  /** The keys of all grids made of the tiles of g (and more): a finite set
      bounding the visited keys. */
  ghost function Universe(g: Grid): set<seq<int>>
  {
    KeysOver(Values(g), |Key(g)|)
  }

  /** A grid with the root's tiles has its key in the root's universe. */
  lemma SameTilesInUniverse(root: Grid, g: Grid)
    requires multiset(Key(g)) == multiset(Key(root))
    ensures Key(g) in Universe(root)
  {
    forall c | 0 <= c < Cells
      ensures Key(g)[c] in Values(root)
    {
      assert Key(g)[c] in multiset(Key(root));
      var c' :| 0 <= c' < Cells && Key(root)[c'] == Key(g)[c];
    }
    InKeysOver(Key(g), Values(root));
  }

  /** all holds the key of every grid made of the tiles of root. */
  ghost predicate Covers(root: Grid, all: set<seq<int>>)
  {
    forall g: Grid :: multiset(Key(g)) == multiset(Key(root)) ==> Key(g) in all
  }

  /** A finite set of keys covering every grid made of the root's tiles. */
  lemma UniverseCovers(root: Grid) returns (all: set<seq<int>>)
    ensures Covers(root, all)
  {
    all := Universe(root);
    forall g: Grid | multiset(Key(g)) == multiset(Key(root))
      ensures Key(g) in all
    {
      SameTilesInUniverse(root, g);
    }
  }

  /** Number of queued entries whose grid is already visited. */
  function CountVisited(q: seq<Entry>, visited: set<seq<int>>): (r: nat)
    ensures r <= |q|
  {
    if |q| == 0 then 0
    else CountVisited(q[1..], visited) + (if Key(q[0].state.grid) in visited then 1 else 0)
  }

  lemma {:induction false} CountVisitedConcat(a: seq<Entry>, b: seq<Entry>, visited: set<seq<int>>)
    ensures CountVisited(a + b, visited) == CountVisited(a, visited) + CountVisited(b, visited)
  {
    if |a| > 0 {
      assert (a + b)[1..] == a[1..] + b;
      CountVisitedConcat(a[1..], b, visited);
    } else {
      assert a + b == b;
    }
  }

  lemma {:induction false} CountVisitedNone(q: seq<Entry>, visited: set<seq<int>>)
    requires forall e :: e in q ==> Key(e.state.grid) !in visited
    ensures CountVisited(q, visited) == 0
  {
    if |q| > 0 {
      assert q[0] in q;
      assert forall e :: e in q[1..] ==> e in q;
      CountVisitedNone(q[1..], visited);
    }
  }

  lemma CountVisitedRemove(q: seq<Entry>, i: int, visited: set<seq<int>>)
    requires 0 <= i < |q|
    ensures CountVisited(q, visited) ==
      CountVisited(Remove(q, i), visited) + (if Key(q[i].state.grid) in visited then 1 else 0)
  {
    assert q == q[..i] + ([q[i]] + q[i + 1..]);
    CountVisitedConcat(q[..i], [q[i]] + q[i + 1..], visited);
    CountVisitedConcat([q[i]], q[i + 1..], visited);
    CountVisitedConcat(q[..i], q[i + 1..], visited);
    assert [q[i]][1..] == [];
  }

  // ---------------------------------------------------------------------
  // Loop invariant

  /** What holds of every queued entry. */
  ghost predicate EntryOk(root: Puzzle, started: bool, e: Entry)
  {
    && e.priority == Heuristic(e.state.grid)
    && Expandable(e.state)
    && multiset(Key(e.state.grid)) == multiset(Key(root.grid))
    && (started ==> Descends(root, e.state))
    && (WellFormed(root) ==> WellFormed(e.state))
  }

  /** The invariant of the search loop for the given root. Before the first
      pop the queue holds the root alone; afterwards the root grid is
      visited and every entry descends from the root. */
  ghost predicate Inv(root: Puzzle, f: Frontier)
  {
    && Expandable(root)
    && (f.visited == {} ==> f.queue == Initial(root).queue)
    && (f.visited != {} ==> Key(root.grid) in f.visited)
    && Key(Goal) !in f.visited
    && forall e :: e in f.queue ==> EntryOk(root, f.visited != {}, e)
  }

  lemma InitialInv(root: Puzzle)
    requires Expandable(root)
    ensures Inv(root, Initial(root))
  {
  }

  /** An expanded state's children keep what the invariant asks of entries. */
  lemma ChildEntryOk(root: Puzzle, p: Puzzle, c: Puzzle)
    requires Expandable(root)
    requires p == root || Descends(root, p)
    requires multiset(Key(p.grid)) == multiset(Key(root.grid))
    requires WellFormed(root) ==> WellFormed(p)
    requires Expandable(p) && c in Adjacent(p) && c.grid != root.grid
    ensures EntryOk(root, true, Entry(c, Heuristic(c.grid)))
  {
    assert IsChild(p, c);
    ChildInvariants(p, c);
    ChildDescends(root, p, c);
  }

  /** The entries left in the queue after a pop were already there, and a
      pop from the initial frontier leaves none. */
  lemma RestEntriesOk(root: Puzzle, f: Frontier, i: int)
    requires Inv(root, f) && 0 <= i < |f.queue|
    ensures forall e :: e in Remove(f.queue, i) ==> EntryOk(root, true, e)
  {
    var rest := Remove(f.queue, i);
    forall e | e in rest
      ensures EntryOk(root, true, e)
    {
      assert e in multiset(rest);
      assert e in f.queue;
      assert f.visited != {};
    }
  }

  /** The entries pushed for the children of a state descending from the
      root, none of them with the root grid, satisfy the invariant. */
  lemma PushedEntriesOk(root: Puzzle, p: Puzzle, visited: set<seq<int>>)
    requires Expandable(root) && Key(root.grid) in visited
    requires p == root || Descends(root, p)
    requires multiset(Key(p.grid)) == multiset(Key(root.grid))
    requires WellFormed(root) ==> WellFormed(p)
    requires Expandable(p)
    ensures forall e :: e in Pushes(Adjacent(p), visited) ==> EntryOk(root, true, e)
  {
    forall e | e in Pushes(Adjacent(p), visited)
      ensures EntryOk(root, true, e)
    {
      KeyInjective(e.state.grid, root.grid);
      ChildEntryOk(root, p, e.state);
    }
  }

  /** The invariant of a frontier after the first pop, from its parts. */
  lemma InvFromParts(root: Puzzle, rest: seq<Entry>, pushed: seq<Entry>, visited: set<seq<int>>)
    requires Expandable(root) && Key(root.grid) in visited
    requires Key(Goal) !in visited
    requires forall e :: e in rest ==> EntryOk(root, true, e)
    requires forall e :: e in pushed ==> EntryOk(root, true, e)
    ensures Inv(root, Frontier(rest + pushed, visited))
  {
    assert forall e :: e in rest + pushed ==> e in rest || e in pushed;
  }

  /** Expanding entry i, not the goal, keeps the invariant. */
  lemma ExpandKeepsInv(root: Puzzle, f: Frontier, i: int)
    requires Inv(root, f) && 0 <= i < |f.queue|
    requires Expandable(f.queue[i].state) && f.queue[i].state.grid != Goal
    ensures Inv(root, Frontier(Remove(f.queue, i) + Pushed(f, i), f.visited + {Key(f.queue[i].state.grid)}))
  {
    var p := f.queue[i].state;
    assert f.queue[i] in f.queue;
    var k := Key(p.grid);
    var visited := f.visited + {k};
    if f.visited == {} {
      assert p == root;
    }
    KeyInjective(p.grid, Goal);
    RestEntriesOk(root, f, i);
    PushedEntriesOk(root, p, visited);
    InvFromParts(root, Remove(f.queue, i), Pushed(f, i), visited);
  }

  /** A pop that does not find the goal keeps the invariant. */
  lemma PopKeepsInv(root: Puzzle, f: Frontier, i: int)
    requires Inv(root, f) && IsMinimal(f.queue, i) && Expandable(f.queue[i].state)
    requires Pop(f, i).Continue?
    ensures Inv(root, Pop(f, i).next)
  {
    PopContinue(f, i);
    ExpandKeepsInv(root, f, i);
  }

  // ---------------------------------------------------------------------
  // Exhaustion

  /** Some queued entry holds the grid h. */
  ghost predicate Queued(q: seq<Entry>, h: Grid)
  {
    exists e :: e in q && e.state.grid == h
  }

  /** Every slide of the blank out of a visited grid leads to a grid that is
      visited or queued: the pops so far have left no neighbour behind. */
  ghost predicate Closed(f: Frontier)
  {
    forall g: Grid, h: Grid :: Key(g) in f.visited && Slides(g, h, 0) ==> Key(h) in f.visited || Queued(f.queue, h)
  }

  /** On a well-formed state, every slide of the blank is one of the
      neighbours the expansion produces. */
  lemma BlankSlideIsChild(p: Puzzle, h: Grid)
    requires WellFormed(p) && Slides(p.grid, h, 0)
    ensures exists c :: c in Adjacent(p) && c.grid == h
  {
    var r1, c1, r2, c2 :| ValidPosition(r1, c1) && ValidPosition(r2, c2)
      && Abs(r1 - r2) + Abs(c1 - c2) == 1 && p.grid[r1][c1] == 0
      && h == Swap(p.grid, r1, c1, r2, c2);
    BlankUnique(p, r1, c1);
    TargetChild(p, r1, c1, r2, c2, h);
  }

  /** A well-formed state holds the blank at its blank coordinates only. */
  lemma BlankUnique(p: Puzzle, r: int, c: int)
    requires WellFormed(p) && ValidPosition(r, c) && p.grid[r][c] == 0
    ensures r == p.blankRow && c == p.blankCol
  {
    var k := Key(p.grid);
    FlatIndex();
    assert k[3 * r + c] == 0 && k[3 * p.blankRow + p.blankCol] == 0;
    assert 3 * r + c == 3 * p.blankRow + p.blankCol;
  }

  /** Every on-board cell (r2, c2) next to the blank coordinates (r1, c1) is
      the target of a neighbour. */
  lemma TargetChild(p: Puzzle, r1: int, c1: int, r2: int, c2: int, h: Grid)
    requires r1 == p.blankRow && c1 == p.blankCol
    requires ValidPosition(r1, c1) && ValidPosition(r2, c2)
    requires Abs(r1 - r2) + Abs(c1 - c2) == 1
    requires h == Swap(p.grid, r1, c1, r2, c2)
    ensures exists n :: n in Adjacent(p) && n.grid == h
  {
    var d := if r2 == r1 + 1 then 0 else if r2 == r1 - 1 then 1 else if c2 == c1 + 1 then 2 else 3;
    assert RowDelta[d] == r2 - r1 && ColDelta[d] == c2 - c1;
    assert TargetRow(p, d) == r2 && TargetCol(p, d) == c2;
    var all := Adjacent(p);
    assert exists n :: n in all && n.blankRow == TargetRow(p, d) && n.blankCol == TargetCol(p, d);
    var n :| n in all && n.blankRow == r2 && n.blankCol == c2;
    assert IsChild(p, n);
  }

  /** Expanding a well-formed entry i keeps the frontier closed. */
  lemma ExpandKeepsClosed(f: Frontier, i: int)
    requires Closed(f) && 0 <= i < |f.queue|
    requires Expandable(f.queue[i].state) && WellFormed(f.queue[i].state)
    ensures Closed(Frontier(Remove(f.queue, i) + Pushed(f, i), f.visited + {Key(f.queue[i].state.grid)}))
  {
    var p := f.queue[i].state;
    var visited := f.visited + {Key(p.grid)};
    forall h: Grid | Slides(p.grid, h, 0) && Key(h) !in visited
      ensures Queued(Pushed(f, i), h)
    {
      ChildQueued(p, h, visited);
    }
    ClosedAfter(f, i, Remove(f.queue, i), Pushed(f, i));
  }

  /** The frontier after popping entry i stays closed when the entries left
      over and the unvisited slides of the popped grid are queued. */
  lemma ClosedAfter(f: Frontier, i: int, rest: seq<Entry>, pushed: seq<Entry>)
    requires Closed(f) && 0 <= i < |f.queue|
    requires multiset(rest) + multiset{f.queue[i]} == multiset(f.queue)
    requires forall h: Grid ::
      (Slides(f.queue[i].state.grid, h, 0) && Key(h) !in f.visited + {Key(f.queue[i].state.grid)} ==> Queued(pushed, h))
    ensures Closed(Frontier(rest + pushed, f.visited + {Key(f.queue[i].state.grid)}))
  {
    var g0 := f.queue[i].state.grid;
    var visited := f.visited + {Key(g0)};
    forall g: Grid, h: Grid | Key(g) in visited && Slides(g, h, 0) && Key(h) !in visited
      ensures Queued(rest + pushed, h)
    {
      if Key(g) in f.visited {
        assert Queued(f.queue, h);
        KeptQueued(f.queue, i, rest, pushed, h);
      } else {
        KeyInjective(g, g0);
        var e :| e in pushed && e.state.grid == h;
        assert e in rest + pushed;
      }
    }
  }

  /** An entry other than the popped one stays queued. */
  lemma KeptQueued(q: seq<Entry>, i: int, rest: seq<Entry>, pushed: seq<Entry>, h: Grid)
    requires 0 <= i < |q| && multiset(rest) + multiset{q[i]} == multiset(q)
    requires Queued(q, h) && h != q[i].state.grid
    ensures Queued(rest + pushed, h)
  {
    var e :| e in q && e.state.grid == h;
    assert e in multiset(rest) + multiset{q[i]};
    assert e in rest + pushed;
  }

  /** Every unvisited slide of the blank of a well-formed state is pushed. */
  lemma ChildQueued(p: Puzzle, h: Grid, visited: set<seq<int>>)
    requires WellFormed(p) && Slides(p.grid, h, 0) && Key(h) !in visited
    ensures Queued(Pushes(Adjacent(p), visited), h)
  {
    BlankSlideIsChild(p, h);
    var c :| c in Adjacent(p) && c.grid == h;
    assert Entry(c, Heuristic(c.grid)) in Pushes(Adjacent(p), visited);
  }

  /** A pop from a closed frontier that does not find the goal keeps it closed. */
  lemma PopKeepsClosed(f: Frontier, i: int)
    requires Closed(f) && IsMinimal(f.queue, i)
    requires Expandable(f.queue[i].state) && WellFormed(f.queue[i].state)
    requires Pop(f, i).Continue?
    ensures Closed(Pop(f, i).next)
  {
    PopContinue(f, i);
    ExpandKeepsClosed(f, i);
  }

  /** Every grid of a chain of blank slides out of a visited grid is visited
      when no slide leaves the visited set. */
  lemma {:induction false} ChainVisited(g: Grid, cs: seq<Grid>, visited: set<seq<int>>)
    requires Key(g) in visited
    requires forall g': Grid, h: Grid :: Key(g') in visited && Slides(g', h, 0) ==> Key(h) in visited
    requires SlideChain(g, cs, 0)
    ensures forall x :: x in cs ==> Key(x) in visited
    decreases |cs|
  {
    if |cs| > 0 {
      ChainVisited(cs[0], cs[1..], visited);
      assert forall x :: x in cs ==> x == cs[0] || x in cs[1..];
    }
  }

  /** With the queue empty, a closed frontier whose visited keys hold the
      root grid and not the goal shows that no chain of blank slides leads
      from the root to the goal. */
  lemma Exhausted(root: Grid, f: Frontier)
    requires Closed(f) && |f.queue| == 0
    requires Key(root) in f.visited && Key(Goal) !in f.visited
    ensures root != Goal
    ensures forall cs :: SlideChain(root, cs, 0) ==> Goal !in cs
  {
    forall cs | SlideChain(root, cs, 0)
      ensures Goal !in cs
    {
      ChainVisited(root, cs, f.visited);
    }
  }

  lemma CardinalityDrop(all: set<seq<int>>, visited: set<seq<int>>, k: seq<int>)
    requires k in all && k !in visited
    ensures |all - (visited + {k})| < |all - visited|
  {
    assert all - visited == (all - (visited + {k})) + {k};
  }

  /** Popping an entry whose grid is already visited removes one visited
      entry from the queue and adds only unvisited ones. */
  lemma CountDrop(q: seq<Entry>, i: int, pushed: seq<Entry>, visited: set<seq<int>>)
    requires 0 <= i < |q| && Key(q[i].state.grid) in visited
    requires forall e :: e in pushed ==> Key(e.state.grid) !in visited
    ensures CountVisited(Remove(q, i) + pushed, visited) < CountVisited(q, visited)
  {
    CountVisitedConcat(Remove(q, i), pushed, visited);
    CountVisitedNone(pushed, visited);
    CountVisitedRemove(q, i, visited);
  }

  lemma PopContinue(f: Frontier, i: int)
    requires IsMinimal(f.queue, i) && Expandable(f.queue[i].state)
    requires Pop(f, i).Continue?
    ensures Pop(f, i).next == Frontier(Remove(f.queue, i) + Pushed(f, i), f.visited + {Key(f.queue[i].state.grid)})
  {
  }

  /** The loop measure drops from f to next: fewer unvisited keys of all, or
      as many and fewer queued entries whose grid is visited. */
  ghost predicate MeasureDrops(all: set<seq<int>>, f: Frontier, next: Frontier)
  {
    || |all - next.visited| < |all - f.visited|
    || (&& |all - next.visited| == |all - f.visited|
        && CountVisited(next.queue, next.visited) < CountVisited(f.queue, f.visited))
  }

  lemma RevisitDrops(all: set<seq<int>>, q: seq<Entry>, i: int, pushed: seq<Entry>, visited: set<seq<int>>)
    requires 0 <= i < |q| && Key(q[i].state.grid) in visited
    requires forall e :: e in pushed ==> Key(e.state.grid) !in visited
    ensures MeasureDrops(all, Frontier(q, visited), Frontier(Remove(q, i) + pushed, visited))
  {
    CountDrop(q, i, pushed, visited);
  }

  /** A pop that does not find the goal decreases the measure
      (unvisited keys, visited entries still queued) lexicographically. */
  lemma PopDecreases(root: Puzzle, all: set<seq<int>>, f: Frontier, i: int)
    requires IsMinimal(f.queue, i) && Expandable(f.queue[i].state)
    requires Covers(root.grid, all) && f.visited <= all
    requires multiset(Key(f.queue[i].state.grid)) == multiset(Key(root.grid))
    requires Pop(f, i).Continue?
    ensures MeasureDrops(all, f, Pop(f, i).next) && Pop(f, i).next.visited <= all
  {
    PopContinue(f, i);
    ExpandDecreases(root, all, f, i);
  }

  /** Expanding entry i decreases the measure. */
  lemma ExpandDecreases(root: Puzzle, all: set<seq<int>>, f: Frontier, i: int)
    requires 0 <= i < |f.queue| && Expandable(f.queue[i].state)
    requires Covers(root.grid, all) && f.visited <= all
    requires multiset(Key(f.queue[i].state.grid)) == multiset(Key(root.grid))
    ensures var next := Frontier(Remove(f.queue, i) + Pushed(f, i), f.visited + {Key(f.queue[i].state.grid)});
      MeasureDrops(all, f, next) && next.visited <= all
  {
    var p := f.queue[i].state;
    var k := Key(p.grid);
    assert k in all;
    if k !in f.visited {
      CardinalityDrop(all, f.visited, k);
    } else {
      assert f.visited + {k} == f.visited;
      var pushed := Pushed(f, i);
      assert forall e :: e in pushed ==> Key(e.state.grid) !in f.visited;
      RevisitDrops(all, f.queue, i, pushed, f.visited);
    }
  }

  lemma QueuedExpandable(root: Puzzle, f: Frontier, i: int)
    requires Inv(root, f) && 0 <= i < |f.queue|
    ensures Expandable(f.queue[i].state)
  {
    assert f.queue[i] in f.queue;
  }

  /** The first pop takes the root, the only entry. */
  lemma FirstPopIsRoot(root: Puzzle, f: Frontier, i: int)
    requires Inv(root, f) && f.visited == {} && IsMinimal(f.queue, i)
    ensures f.queue[i].state == root
  {
  }

  // ---------------------------------------------------------------------
  // The search

  /** Greedy best-first search from root: pops a minimal-priority entry at
      each iteration; returns the popped state's path extended by the goal
      on reaching it, and an empty path with false once the queue runs out.
      Termination rests on the finite set of keys the root's tiles can form. */
  method Search(root: Puzzle) returns (path: seq<Grid>, found: bool)
    requires Expandable(root)
    ensures found ==> |path| > 0 && path[|path| - 1] == Goal
    ensures !found ==> path == []
    ensures root.grid == Goal ==> found && path == root.path + [Goal]
    ensures found && root.grid != Goal ==> SolutionShape(root, path)
    ensures !found && WellFormed(root) ==> root.grid != Goal && forall cs :: SlideChain(root.grid, cs, 0) ==> Goal !in cs
  {
    ghost var all := UniverseCovers(root.grid);
    var f := Initial(root);
    while |f.queue| > 0
      invariant Inv(root, f) && f.visited <= all
      invariant root.grid == Goal ==> f.visited == {}
      invariant WellFormed(root) ==> Closed(f)
      decreases |all - f.visited|, CountVisited(f.queue, f.visited)
    {
      MinimalExists(f.queue);
      var i :| IsMinimal(f.queue, i);
      QueuedExpandable(root, f, i);
      var step := Pop(f, i);
      if step.Found? {
        FoundResult(root, f, i);
        return step.path, true;
      }
      ContinueStep(root, all, f, i);
      ContinueClosed(root, f, i);
      f := step.next;
    }
    ExhaustedResult(root, f);
    return [], false;
  }

  /** When the queue runs out, no chain of blank slides leads from a
      well-formed root to the goal. */
  lemma ExhaustedResult(root: Puzzle, f: Frontier)
    requires Inv(root, f) && |f.queue| == 0
    requires WellFormed(root) ==> Closed(f)
    ensures WellFormed(root) ==> root.grid != Goal && forall cs :: SlideChain(root.grid, cs, 0) ==> Goal !in cs
  {
    if WellFormed(root) {
      Exhausted(root.grid, f);
    }
  }

  /** A pop that does not find the goal keeps the frontier of a well-formed
      root closed. */
  lemma ContinueClosed(root: Puzzle, f: Frontier, i: int)
    requires Inv(root, f) && IsMinimal(f.queue, i) && Expandable(f.queue[i].state)
    requires WellFormed(root) ==> Closed(f)
    requires Pop(f, i).Continue?
    ensures WellFormed(root) ==> Closed(Pop(f, i).next)
  {
    if WellFormed(root) {
      assert f.queue[i] in f.queue;
      PopKeepsClosed(f, i);
    }
  }

  /** A pop that does not find the goal keeps the loop invariants and
      decreases the loop measure. */
  lemma ContinueStep(root: Puzzle, all: set<seq<int>>, f: Frontier, i: int)
    requires Inv(root, f) && IsMinimal(f.queue, i) && Expandable(f.queue[i].state)
    requires Covers(root.grid, all) && f.visited <= all
    requires root.grid == Goal ==> f.visited == {}
    requires Pop(f, i).Continue?
    ensures Inv(root, Pop(f, i).next) && root.grid != Goal
    ensures MeasureDrops(all, f, Pop(f, i).next) && Pop(f, i).next.visited <= all
  {
    assert f.queue[i] in f.queue;
    if f.visited == {} {
      FirstPopIsRoot(root, f, i);
    }
    PopKeepsInv(root, f, i);
    PopDecreases(root, all, f, i);
  }

  /** The path a pop returns on finding the goal: the root's path and the
      goal when the root is the goal, a path of the solution shape otherwise. */
  lemma FoundResult(root: Puzzle, f: Frontier, i: int)
    requires Inv(root, f) && IsMinimal(f.queue, i) && Expandable(f.queue[i].state)
    requires root.grid == Goal ==> f.visited == {}
    requires Pop(f, i).Found?
    ensures |Pop(f, i).path| > 0 && Pop(f, i).path[|Pop(f, i).path| - 1] == Goal
    ensures root.grid == Goal ==> Pop(f, i).path == root.path + [Goal]
    ensures root.grid != Goal ==> SolutionShape(root, Pop(f, i).path)
  {
    var p := f.queue[i].state;
    assert f.queue[i] in f.queue;
    if f.visited == {} {
      FirstPopIsRoot(root, f, i);
    } else {
      FoundShape(root, p);
    }
  }

  /** A popped goal state that descends from the root yields a path of the
      solution shape. */
  lemma FoundShape(root: Puzzle, p: Puzzle)
    requires Descends(root, p) && p.grid == Goal
    ensures SolutionShape(root, p.path + [Goal])
  {
    var n := |root.path|;
    var path := p.path + [Goal];
    assert path[..n] == root.path;
    assert path[n..|path| - 1] == p.path[n..];
    assert path[n..] == p.path[n..] + [Goal];
    assert root.grid != Goal by {
      assert p.path[n..][|p.path[n..]| - 1] == Goal;
    }
  }
}
