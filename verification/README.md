# 8-puzzle greedy solver — Dafny model

A model of the core of a small Go program (`main.go`) that generates a 3x3
sliding-tile puzzle ("8-puzzle") and solves it. The solver is a greedy
best-first search. It pops the queued state with the least Manhattan-distance
heuristic and keeps a set of visited grid keys.

The model is split into modules that follow the program's functions:

- `Board` (`board.dfy`) covers the puzzle state `QuebraCabeca`:
  - the 3x3 grid type and the goal grid;
  - the row-major key used by the visited set (`criarChave`);
  - the goal test (`verificarEstadoFinal`) and the bounds test (`isPosicaoValida`);
  - the four blank slides of `obterEstadosAdjacentes`;
  - the absolute value `abs` used by the heuristic.
- `Solvability` (`solvability.dfy`) covers the oracle `isTabuleiroSolucionavel`. It counts inversions among the non-blank tiles in row-major order and accepts an even count. It comes as:
  - a pure reference definition;
  - three loop methods that follow the source's loops.
- `Manhattan` (`manhattan.dfy`) covers the heuristic `calcularHeuristica` and the position search `encontrarPosicao`.
- `GreedySearch` (`search.dfy`) covers `buscaGulosa`:
  - one loop iteration is a pure function `Pop` on a frontier (queue plus visited set);
  - `Search` is the loop;
  - the heap is abstracted: a pop may take ANY entry of least priority.
- `Generator` (`generator.dfy`) covers the deterministic part of `gerarTabuleiro`. The random permutation is a parameter, the grid is laid out from it, and the blank is scanned for.
- `SearchExample` (`example.dfy`) covers the run from a state one slide away from the goal.

The model keeps these behaviours of the code:

- **A child's path.** The child's path is the parent's path followed by the child's own grid (`main.go:193-198`). A root's path starts empty, so a returned path lists the grid after each move, starting with the first move's grid rather than the root's.
- **The success path.** On success the popped state's path gets the goal grid appended again (`main.go:125`). A search that moves once from the root therefore returns `[Goal, Goal]` (`SearchExample.OneSlideSolution`, `SearchExample.NearOneSlide`).
- **Visited marking.** A grid is marked visited when its entry is popped. Children are filtered against the visited set before they are pushed. A popped entry is never checked against the visited set, so a grid queued twice before its first pop is expanded twice. The search still terminates (`GreedySearch.Search`), for every root, solvable or not. The measure is the lexicographic pair:
  - the number of keys over the root's tiles not yet visited;
  - the number of queued entries whose grid is already visited.

`obterEstadosAdjacentes` indexes the grid at the stored blank coordinates whenever some target cell is on the board. So those coordinates must then be on the board, or Go panics. The model states this as the precondition `Board.Expandable`. Every generated state meets it.

## Model

| member | source | states |
|---|---|---|
| Board.Abs | main.go:172-177 | the result is non-negative and is x or -x |
| Board.Key | main.go:217-226 | the key has 9 entries, and entry 3i+j is the cell in row i, column j |
| Board.KeyInjective | main.go:217-226 | two grids have the same key exactly when they are the same grid, so the visited set of keys is a set of grids |
| Board.IsFinal | main.go:208-215 | the goal test holds exactly when every cell equals the goal grid's cell, and exactly when the key equals the goal's key |
| Board.Swap | main.go:190-192 | the two cells are exchanged and every other cell is unchanged |
| Board.SwapKeepsTiles | main.go:190-192 | an exchange keeps the multiset of the grid's values |
| Board.SwapKeepsPermutation | main.go:190-192 | an exchange keeps a grid holding each of 0..8 once |
| Board.Adjacent | main.go:179-206 | at most four neighbours; each is one slide of the blank coordinates to an on-board adjacent cell, with the cells exchanged and the path extended by the neighbour's own grid; every on-board target yields a neighbour |
| Board.AdjacentOrdered | main.go:180-188 | neighbours come in the move order row+1, row-1, col+1, col-1, each move at most once |
| Board.AdjacentCount | main.go:185-189 | two neighbours in a corner, three on an edge, four in the centre |
| Board.ChildInvariants | main.go:190-198 | a neighbour keeps the tiles, the value at the blank coordinates and well-formedness, and its path is the parent's path plus its own grid |
| Solvability.IsSolvable | main.go:87-111 | the verdict is true exactly when the row-major inversion count of non-blank tiles is even |
| Solvability.Flatten | main.go:89-95 | the linear array is the grid read row by row |
| Solvability.CountInversions | main.go:97-109 | the loop counts exactly the pairs i < j of non-blank entries with linear[i] > linear[j] |
| Solvability.InversionsCountPairs | main.go:97-109 | the recursive inversion count equals the number of index pairs i < j whose entries are both non-blank and out of order |
| Solvability.CountSmallerAfter | main.go:101-108 | the inner loop counts the non-blank entries after position i that are smaller than entry i |
| Solvability.ExchangeKeepsParity | main.go:87-111 | moving the blank one or three places in the row-major order keeps the parity of the inversion count |
| Solvability.SlideKeepsSolvability | main.go:87-111 | a legal slide of the blank never changes the oracle's verdict |
| Solvability.AdjacentKeepSolvability | main.go:179-202 | every neighbour the expansion produces has its parent's verdict |
| Solvability.GoalSolvable | main.go:87-111 | the goal grid is accepted |
| Solvability.SwappedGoalUnsolvable | main.go:87-111 | the goal with tiles 1 and 2 exchanged is refused |
| Manhattan.FindPosition | main.go:161-170 | the result is the first cell in row-major order holding the value, and (-1, -1) exactly when no cell holds it |
| Manhattan.GoalPosition | main.go:142-146 | on the goal grid the position search finds tile v in 1..8 at flat index v-1 and the blank at (2, 2) |
| Manhattan.TileDistanceFindsGoal | main.go:150-155 | a tile's contribution is its row plus column distance to the cell the position search finds for it on the goal grid |
| Manhattan.TileDistanceZero | main.go:150-155 | a cell contributes nothing exactly when it holds the blank or its own goal tile |
| Manhattan.Heuristic | main.go:140-159 | the heuristic is non-negative |
| Manhattan.HeuristicGoal | main.go:140-159 | the goal grid has heuristic 0 |
| Manhattan.HeuristicZeroIffGoal | main.go:140-159 | on a grid holding each of 0..8 once, the heuristic is 0 exactly on the goal |
| Manhattan.ExchangeDistance | main.go:148-157 | moving one tile into the blank changes the heuristic by the change of that tile's own distance |
| Manhattan.SlideChangesHeuristicByOne | main.go:148-157 | every slide of the blank changes the heuristic by exactly one, up or down |
| Manhattan.HeuristicExample | main.go:140-159 | the grid with tile 6 one row below its goal cell has heuristic 1 |
| GreedySearch.MinimalExists | main.go:118-119 | a non-empty queue has an entry of least priority for the pop to take |
| GreedySearch.Remove | main.go:31-37 | the pop removes exactly the popped entry from the queue |
| GreedySearch.Pushes | main.go:129-135 | the pushed entries are exactly the unvisited neighbours, each with its heuristic as priority; each entry is pushed as many times as the neighbour occurs, and never for a visited grid |
| GreedySearch.Pop | main.go:118-135 | one iteration: success exactly on the goal grid, with the popped path plus the goal; otherwise the popped grid is added to the visited set, every other queued entry stays queued, every unvisited neighbour is pushed with its heuristic, and the new queue is, as a multiset, the old one minus the popped entry plus those pushes |
| GreedySearch.InitialInv | main.go:114-116 | the initial frontier (root alone, nothing visited) meets the loop invariant |
| GreedySearch.ChildDescends | main.go:193-198 | a neighbour of a state that descends from the root descends from it too: its path is the root's path plus a chain of slides ending in its own grid |
| GreedySearch.PopKeepsInv | main.go:118-135 | a pop that does not find the goal keeps the loop invariant |
| GreedySearch.PopDecreases | main.go:118-135 | a pop that does not find the goal decreases the loop measure |
| GreedySearch.BlankSlideIsChild | main.go:179-202 | on a well-formed state, every slide of the blank to an adjacent on-board cell is one of the neighbours the expansion produces |
| GreedySearch.PopKeepsClosed | main.go:118-135 | a pop that does not find the goal keeps the frontier closed: every blank slide out of a visited grid leads to a visited or queued grid |
| GreedySearch.Exhausted | main.go:118-137 | once the queue is empty, a closed frontier that visited the root and not the goal shows that no chain of blank slides leads from the root to the goal |
| GreedySearch.FirstPopIsRoot | main.go:114-119 | the first pop takes the root |
| GreedySearch.FoundShape | main.go:124-127 | a popped goal state yields the root's path, a chain of slides from the root ending in the goal, and the goal once more |
| GreedySearch.Search | main.go:113-138 | the search terminates; on success the path ends in the goal; on failure the path is empty; a goal root yields its path plus the goal; otherwise the path has the solution shape; failure from a well-formed root means no chain of blank slides from it reaches the goal |
| Generator.Layout | main.go:66-72 | the laid-out grid read row by row is the permutation |
| Generator.FindBlank | main.go:74-82 | with no blank the coordinates stay (0, 0); otherwise they name a blank in the last row holding one, and the first blank of that row |
| Generator.Generate | main.go:62-85 | the generated state's key is the permutation, its path is empty, its blank coordinates are on the board, and for a permutation of 0..8 they hold the blank |
| SearchExample.OneSlideSolution | main.go:118-135 | from a well-formed root with the goal among its neighbours, every possible second pop returns the root's path followed by the goal twice |
| SearchExample.NearChildren | main.go:179-202 | the neighbours of the grid [[1,2,3],[4,5,0],[7,8,6]] with blank (1, 2) are the goal, then the blank moved up, then left |
| SearchExample.NearOneSlide | main.go:179-202 | that state is well-formed, is not the goal, and has the goal as its first neighbour |

## Left out

- `main`, the regeneration loop around the oracle, and the printing (`imprimirTabuleiro`) are I/O around the core.
- The random source: `rng.Perm(9)` becomes the parameter of `Generator.Generate`.
- The heap internals (`container/heap`, `FilaPrioridade`). A pop takes any entry of least priority. The heap's tie-breaking among equal priorities depends on its internal layout and is not modelled, so every property of the search holds for every tie-break.
- Integer overflow: every value stays below 100, far from the limits of Go's `int`.
- The 9!/2 bound on visited grids. The model proves termination from the finiteness of the arrangements of the root's tiles, not from that bound.
- GreedySearch.Search: reaching the goal from every solvable root is not stated. Failure from a well-formed root is proved to mean that no chain of blank slides reaches the goal. Turning that into success for every solvable root would need the reachability half of the parity theorem. A root that is not well-formed gets no statement on failure.
- Manhattan.Heuristic: its own contract states only non-negativity. What it computes is stated by the lemmas about it.
