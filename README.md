# Chain reaction, max-cut heuristics and CSV tables in Dafny

This project models the deterministic core of a small collection of course
programs and proves properties of that model.

- **Chain-reaction board** (`ChainRules`, `ChainBoard`): a grid of cells, each
  holding an orb count and a colour character (`' '` for empty). Placing an orb
  runs a breadth-first cascade: a cell that reaches its critical mass (2 in a
  corner, 3 on a border, 4 inside) empties and sends one orb to each of its four
  neighbours. A cell owned by another colour is skipped unless the placement is
  forced. The board also answers queries for valid moves, score and game over.
  `ChainRules` states all of this on values. `ChainBoard.Board` is the class
  with a two-dimensional array whose methods are proved against those values.
- **Players** (`ChainSearch`, `ChainPlayer`): a human player that makes one
  checked placement, and an AI player that scores every valid move with a
  depth-bounded alpha-beta search over board copies and plays the first best
  one. `ChainSearch` defines plain minimax and the pruned search as functions
  and proves that pruning does not change the value in the full window.
  `ChainPlayer` holds the two player classes, whose methods are proved equal
  to those functions.
- **Max-cut heuristics over vertex sets** (`MaxCutSets`, for
  `offline2/main.cpp`): cut weight, the weight of a vertex to a set, the delta
  of moving a vertex, the heaviest-edge seed, the greedy construction, and
  hill-climbing local search. Local search is proved to end in a local optimum
  without lowering the cut.
- **Max-cut heuristics over a partition vector** (`MaxCutPartition`, for
  `offline2/draft.cpp`): weighted edges, cut weights from a label vector, list
  sums, delta, and the greedy and local-search variants that work on vectors.
- **CSV parsing and table layout** (`CsvTable`, for `offline4/parser.hpp`):
  - splitting fields the way `getline(stream, field, ',')` does;
  - skipping the first column and dropping rows without fields;
  - synthetic headers;
  - column widths and cell truncation for the printed table.

Two behaviours of the code worth knowing, both modelled as written:

- The AI scores each of its moves with a search of its full `depth`
  (`offline3/offline3/Engine/player.hpp:115`), not `depth - 1`.
- The game-over test does not count the orbs of the first owned cell it meets
  (`offline3/Engine/board.hpp:129-130`).

## Model

| member | source | states |
|---|---|---|
| ChainRules.PositionClasses | offline3/Engine/board.hpp:157-182 | every in-grid position is exactly one of corner, edge and centre, and its critical mass is 2, 3 or 4 exactly when it is a corner, an edge or a centre cell |
| ChainRules.CriticalMassIsNeighbourCount | offline3/Engine/board.hpp:173-182 | on a grid of at least 2 x 2, the critical mass of a cell is the number of its four neighbours that lie on the grid |
| ChainRules.CriticalMass | offline3/Engine/board.hpp:173-182 | 2 in a corner, 3 on an edge, 4 inside and elsewhere; PositionClasses and CriticalMassIsNeighbourCount state its meaning |
| ChainRules.EmptyStateValid | offline3/Engine/board.hpp:33-38 | a new board (every cell 0 orbs and `' '`) satisfies the orb invariant |
| ChainRules.EnqueueAllDistinct | offline3/Engine/board.hpp:80-90 | enqueuing the neighbours that are not already queued keeps the queue free of repeats; it then holds exactly the old entries and the neighbours, with the old entries first |
| ChainRules.Visit | offline3/Engine/board.hpp:56-91 | one iteration of the cascade loop on the board value: pop the front position, add an orb if the cell accepts it, explode at critical mass and queue the neighbours; the board keeps its size and shape |
| ChainRules.Cascade | offline3/Engine/board.hpp:56-92 | the cascade loop run for at most `fuel` visits, with a flag saying whether the queue emptied; the board keeps its size and shape |
| ChainRules.Place | offline3/Engine/board.hpp:48-93 | an unforced `insert_orb`: the cascade from the single target position |
| ChainRules.VisitEffect | offline3/Engine/board.hpp:56-91 | one visit drops an off-grid position; it leaves an unaccepted cell (another colour, not forced) alone; otherwise it gives the cell one orb and the colour, or empties it at critical mass and queues its neighbours; no other cell changes |
| ChainRules.VisitKeepsValid | offline3/Engine/board.hpp:67-76 | a visit keeps, on every cell, "empty colour exactly when 0 orbs" and "orb count below critical mass" |
| ChainRules.VisitKeepsDistinct | offline3/Engine/board.hpp:57-61 | a visit keeps the queue free of repeats, which is what the in-queue set tracks |
| ChainRules.CascadeKeepsValid | offline3/Engine/board.hpp:56-92 | the whole cascade, however many visits run, keeps the orb invariant |
| ChainRules.PlaceKeepsValid | offline3/Engine/board.hpp:48-93 | placing an orb of a real colour keeps the orb invariant |
| ChainRules.PlaceOffGrid | offline3/Engine/board.hpp:63-65 | an orb placed off the grid is dropped and the board is unchanged |
| ChainRules.FlattenIndex | offline3/Engine/board.hpp:98-99 | row-major order: cell (i, j) sits at index i * cols + j of the flattened grid |
| ChainRules.Score | offline3/Engine/board.hpp:105-117 | the sum of the orb counts of the cells of the colour; ScoreWith and ScorePairBound state its properties |
| ChainRules.ScoreWith | offline3/Engine/board.hpp:105-117 | changing one cell changes a colour's score by that cell's old and new contributions only |
| ChainRules.ScorePairBound | offline3/Engine/board.hpp:105-117 | on a valid board, scores are non-negative and two colours' scores add up to at most 3 per cell |
| ChainRules.ValidMoves | offline3/Engine/board.hpp:95-103 | the positions of the cells that are empty or of the colour, row by row; ValidMovesMeaning states its meaning |
| ChainRules.ValidMovesMeaning | offline3/Engine/board.hpp:95-103 | the valid moves of a colour are exactly the in-grid cells that are empty or of that colour, in strict row-major order and without repeats |
| ChainRules.ScanAllMeaning | offline3/Engine/board.hpp:123-136 | the scan stops exactly when two colours own cells; otherwise its colour is the first owned cell's and its count is the orbs of the owned cells after that first one |
| ChainRules.GameOver | offline3/Engine/board.hpp:119-138 | the value `is_game_over` returns, through the row-major scan; GameOverMeaning states it without the scan |
| ChainRules.GameOverMeaning | offline3/Engine/board.hpp:119-138 | the game is over exactly when no two colours own cells, some cell is owned, and the owned cells after the first owned one hold at least 2 orbs |
| ChainRules.NotOverWithTwoOwners | offline3/Engine/board.hpp:131-132 | two cells owned by different colours mean the game is not over |
| ChainBoard.Board.constructor | offline3/Engine/board.hpp:33-38 | a new board of the given size with every cell empty |
| ChainBoard.Board.Copy | offline3/Engine/board.hpp:39-44 | a copy has a fresh grid with the same cells |
| ChainBoard.Board.SetCell | offline3/Engine/board.hpp:23-24 | setting one grid cell changes that cell and nothing else |
| ChainBoard.Board.InsertOrb | offline3/Engine/board.hpp:48-93 | the in-place cascade loop, with the queue and its in-queue set kept equal, leaves the board the cascade function computes |
| ChainBoard.EnqueueNeighbours | offline3/Engine/board.hpp:76-90 | the four-direction loop queues exactly the neighbours not already waiting, in the order up, right, down, left, and keeps the in-queue set equal to the queued positions |
| ChainBoard.Board.GetValidMoves | offline3/Engine/board.hpp:95-103 | the nested loop returns the valid moves (in-grid cells that are empty or own, row-major) |
| ChainBoard.Board.GetScore | offline3/Engine/board.hpp:105-117 | the nested loop returns the colour's score, the orbs of the cells of that colour |
| ChainBoard.Board.IsGameOver | offline3/Engine/board.hpp:119-138 | the early-exit scan returns the game-over value |
| ChainBoard.Board.GetOrbCount | offline3/Engine/board.hpp:140-145 | 0 off the grid, the stored count on it; on a valid board 0 exactly when the cell's colour is empty, and below critical mass |
| ChainBoard.Board.GetColor | offline3/Engine/board.hpp:147-152 | `' '` off the grid, the stored colour on it |
| ChainSearch.Opp | offline3/offline3/Engine/player.hpp:40 | the opponent of `'R'` is `'B'` and of every other colour `'R'`; it never equals the colour or the empty mark |
| ChainSearch.Evaluate | offline3/offline3/Engine/player.hpp:38-45 | own score minus the opponent's score |
| ChainSearch.EvaluateBound | offline3/offline3/Engine/player.hpp:38-45 | an evaluation lies within 3 orbs per cell of 0 |
| ChainSearch.Minimax | offline3/offline3/Engine/player.hpp:47-91 | plain minimax without pruning, over the same moves, depth cut-off and game-over test: the reference the pruned search is proved against |
| ChainSearch.AlphaBeta | offline3/offline3/Engine/player.hpp:47-91 | the pruned search as the program runs it: evaluation at depth 0, at game over and without moves, otherwise the maximising or minimising scan |
| ChainSearch.ABMax | offline3/offline3/Engine/player.hpp:56-72 | the maximising loop: the running maximum over the children, raising alpha, stopping once beta <= alpha |
| ChainSearch.ABMin | offline3/offline3/Engine/player.hpp:73-90 | the minimising loop: the running minimum over the children, lowering beta, stopping once beta <= alpha |
| ChainSearch.ABMaxAtLeast | offline3/offline3/Engine/player.hpp:58-71 | a maximising scan returns at least its running maximum |
| ChainSearch.ABMinAtMost | offline3/offline3/Engine/player.hpp:75-89 | a minimising scan returns at most its running minimum |
| ChainSearch.AlphaBetaCorrect | offline3/offline3/Engine/player.hpp:47-91 | clamped to any window inside the sentinels, the pruned search equals plain minimax clamped to the same window |
| ChainSearch.ABMaxCorrect | offline3/offline3/Engine/player.hpp:56-72 | the same for a maximising scan whose running maximum starts at or below alpha |
| ChainSearch.ABMinCorrect | offline3/offline3/Engine/player.hpp:73-90 | the same for a minimising scan whose running minimum starts at or above beta |
| ChainSearch.MinimaxBound | offline3/offline3/Engine/player.hpp:47-91 | the game value lies within 3 orbs per cell of 0 |
| ChainSearch.FullWindowExact | offline3/offline3/Engine/player.hpp:115 | with the window (INT_MIN, INT_MAX) the pruned search returns exactly the plain minimax value, which lies strictly between the sentinels |
| ChainSearch.RootScores | offline3/offline3/Engine/player.hpp:109-115 | one score per move: the full-window search after that move, with the opponent to move |
| ChainSearch.Pick | offline3/offline3/Engine/player.hpp:102-121 | the running best starts at (INT_MIN, first move) and the chosen index is a move's index |
| ChainSearch.PickFirstMax | offline3/offline3/Engine/player.hpp:116-120 | when every score beats INT_MIN, the pick is a maximum score and every earlier score is strictly smaller |
| ChainSearch.RootChoice | offline3/offline3/Engine/player.hpp:100-124 | the AI plays a move of greatest game value, the first such in row-major order |
| ChainPlayer.Child | offline3/offline3/Engine/player.hpp:63-64 | a copy of the board with one unforced orb placed is the placement on the board's value, and the board itself is unchanged |
| ChainPlayer.Human.constructor | offline3/offline3/Engine/player.hpp:20-23 | a human player of the given colour |
| ChainPlayer.Human.MakeMove | offline3/offline3/Engine/player.hpp:25-31 | refuses, leaving the board alone, exactly when the target is owned by another colour; otherwise places one unforced orb, off-grid targets included |
| ChainPlayer.AI.constructor | offline3/offline3/Engine/player.hpp:94-98 | an AI player of the given colour and depth |
| ChainPlayer.AI.Evaluate | offline3/offline3/Engine/player.hpp:38-45 | own score minus the opponent's score |
| ChainPlayer.AI.Minimax | offline3/offline3/Engine/player.hpp:47-91 | the recursive search over board copies returns the pruned-search value and never changes its board argument |
| ChainPlayer.AI.MakeMove | offline3/offline3/Engine/player.hpp:100-124 | refuses, leaving the board alone, exactly when there is no valid move; otherwise plays the first move with the highest full-depth score |
| MaxCutSets.WeightToFrom | offline2/main.cpp:50-66 | with an undirected matrix, a vertex's weight to a set equals its weight from the set |
| MaxCutSets.CutSymmetric | offline2/main.cpp:9-16 | with an undirected matrix, the cut weight does not depend on which side is called x |
| MaxCutSets.CutBound | offline2/main.cpp:163-198 | every cut weight lies between minus and plus the total absolute weight, which bounds the number of improving moves |
| MaxCutSets.MoveGain | offline2/main.cpp:188-197 | moving a vertex to the other side changes the cut weight by exactly its delta, when weights are undirected with no self-weight |
| MaxCutSets.CutWeight | offline2/main.cpp:9-16 | the double loop returns the sum of weight[u][v] over u in x and v in y |
| MaxCutSets.CutWeightOfPair | offline2/main.cpp:18-27 | the pair overload returns the same cut weight |
| MaxCutSets.IfIncluded | offline2/main.cpp:50-56 | the sum of weight[v][z] over v in the set |
| MaxCutSets.Delta | offline2/main.cpp:58-66 | the weight of v to `before` minus its weight to `after` |
| MaxCutSets.MaxWeightEdge | offline2/main.cpp:29-48 | finds a pair exactly when some scanned weight weight[list[i][0]][list[i][j]] exceeds -1, the starting maximum; the pair is (list[i][0], list[i][j]) at the first strictly largest weight[list[i][0]][list[i][j]] |
| MaxCutSets.GreedyFromSeed | offline2/main.cpp:91-104 | with seeds u in x and v in y, every other vertex 1..n-1 is on exactly one side, in x exactly when its weight to the earlier y beats its weight to the earlier x |
| MaxCutSets.GreedyIsPartition | offline2/main.cpp:87-106 | with different seeds the greedy sides are disjoint vertex sets |
| MaxCutSets.GreedyMaxCut | offline2/main.cpp:87-106 | the greedy construction seeded with the heaviest-edge scan's pair |
| MaxCutSets.MaxWeightEdgeRepeatsVertex | offline2/main.cpp:36-44 | on the path 1 - 2 - 3 the scan can only return (2, 2), so both sides get vertex 2 |
| MaxCutSets.MaxWeightEdgeFixed | offline2/main.cpp:29-48 | scanning with u = i returns a first heaviest listed edge (i, list[i][j]), whose ends differ when no list holds its own vertex |
| MaxCutSets.GreedyMaxCutFixed | offline2/main.cpp:87-106 | seeded with that edge, the greedy sides are disjoint and cover every vertex 1..n-1 |
| MaxCutSets.LocalSearch | offline2/main.cpp:161-200 | each move shifts one vertex, so the sides stay disjoint with the same union; the loop stops at a local optimum (no vertex has positive delta); the cut weight never drops |
| MaxCutPartition.LessIsStrictWeakOrder | offline2/draft.cpp:20-23 | edges are ordered by weight only, a strict weak order whose ties are the equal weights |
| MaxCutPartition.SameIsEquivalence | offline2/draft.cpp:24-27 | edge equality is an equivalence that ignores direction and weight |
| MaxCutPartition.EdgeCutAppend | offline2/draft.cpp:31-40 | the cut of two edge lists is the sum of their cuts |
| MaxCutPartition.EdgeCutPermutation | offline2/draft.cpp:263 | rearranging the edges (the sort by weight) leaves every cut weight unchanged |
| MaxCutPartition.CutWeight | offline2/draft.cpp:31-40 | the sum of the weights of the edges whose endpoints carry different labels |
| MaxCutPartition.LabelSides | offline2/draft.cpp:44-48 | the label vector: y wins over x, other vertices stay -1 |
| MaxCutPartition.CutWeightOfSides | offline2/draft.cpp:42-56 | the crossing-edge sum for the labels of x and y in a vector of length \|x\| + \|y\| + 1 |
| MaxCutPartition.IfIncludedLabel | offline2/draft.cpp:58-67 | the sum of weight[i][z] over the vertices i >= 1 carrying the given label |
| MaxCutPartition.ListWeightToSet | offline2/draft.cpp:69-75 | for a list without repeats, the list sum equals the set sum of `main.cpp`'s ifIncluded |
| MaxCutPartition.IfIncluded | offline2/draft.cpp:69-75 | the sum of weight[v][z] over the entries of the list |
| MaxCutPartition.Delta | offline2/draft.cpp:77-88 | over vertices v >= 1, plus weight[v][u] for v with u's label and minus it for the others |
| MaxCutPartition.LabelDeltaIsGain | offline2/draft.cpp:77-88 | on binary labels with an undirected matrix, this delta is the set-based delta of `main.cpp` |
| MaxCutPartition.GreedyLists | offline2/draft.cpp:109-128 | the lists the greedy loop has built after vertices 1..z-1, every id a vertex; GreedyListsShape and GreedyListsAgree state its meaning |
| MaxCutPartition.GreedyListsShape | offline2/draft.cpp:109-128 | x starts with the first seed and y with the second; the rest of each list is increasing, made of vertices other than the seeds |
| MaxCutPartition.GreedyListsAgree | offline2/draft.cpp:109-128 | with different seeds the lists hold the sides the set-based greedy rule gives: every other vertex on one side, in x exactly when its weight to y beats its weight to x |
| MaxCutPartition.GreedyMaxCut | offline2/draft.cpp:109-128 | seeds with the first edge's endpoints and places every other vertex 1..n-1 greedily |
| MaxCutPartition.FlipGain | offline2/draft.cpp:206 | flipping a binary label raises the cut weight by exactly that vertex's delta |
| MaxCutPartition.BestFlip | offline2/draft.cpp:194-204 | the scan returns the first vertex of largest delta when that delta is positive, and vertex 0 with value 0 when no delta is positive |
| MaxCutPartition.ListsFromLabels | offline2/draft.cpp:208-216 | x lists the vertices 1..n-1 labelled x and y all the others, each increasing, so together they split 1..n-1 |
| MaxCutPartition.ResultLabelsMatch | offline2/draft.cpp:208-217 | rebuilding x and y from the label vector keeps the cut and every delta |
| MaxCutPartition.LocalSearch | offline2/draft.cpp:185-218 | returns increasing x and y that split the vertices 1..n-1; no vertex has positive delta; the cut weight is at least the starting one |
| CsvTable.IndexOfUnique | offline4/parser.hpp:29 | the first comma is where a field read ends |
| CsvTable.FieldsHaveNoComma | offline4/parser.hpp:29 | no field contains a comma |
| CsvTable.JoinFields | offline4/parser.hpp:26-37 | joining a line's fields with commas gives the line back, except for one trailing comma, which reading drops |
| CsvTable.FieldsJoin | offline4/parser.hpp:26-37 | comma-free fields whose last one is not empty read back unchanged from their join |
| CsvTable.Getline | offline4/parser.hpp:47 | one field read: the text up to the next comma or the end, and the position after that comma |
| CsvTable.FieldsFrom | offline4/parser.hpp:47 | the fields from a position are the field read there followed by the fields after it |
| CsvTable.ReadRow | offline4/parser.hpp:42-55 | the field loop returns the line's fields, without the first when the first column is skipped |
| CsvTable.Fields | offline4/parser.hpp:47 | the fields that repeated `getline(ss, value, ',')` calls read from a line: each runs up to the next comma, and reading stops when no character is left; JoinFields and FieldsJoin state its meaning |
| CsvTable.Row | offline4/parser.hpp:42-55 | a line's fields without the first one when the first column is skipped |
| CsvTable.KeptRows | offline4/parser.hpp:40-65 | the rows of the lines, in file order, dropping empty ones; no kept row is empty |
| CsvTable.KeptRowsMeaning | offline4/parser.hpp:40-65 | the kept rows are the non-empty rows of the lines: none is empty, each comes from a line, every line with fields contributes |
| CsvTable.KeptLines | offline4/parser.hpp:40-65 | the indices of the lines whose row is non-empty, in file order |
| CsvTable.KeptLinesIncreasing | offline4/parser.hpp:40-65 | the taken line indices are in range and strictly increasing |
| CsvTable.KeptLinesMeaning | offline4/parser.hpp:40-65 | a line is taken exactly when its row is non-empty |
| CsvTable.KeptRowsInOrder | offline4/parser.hpp:40-65 | the k-th kept row is the row of the k-th line with fields; those lines are taken in strictly increasing order, and a line is taken exactly when its row is non-empty; there are no more kept rows than lines |
| CsvTable.NatToStringValue | offline4/parser.hpp:76 | the decimal writing of n is digits only, has no leading zero and denotes n |
| CsvTable.NatToStringInjective | offline4/parser.hpp:76 | different numbers have different decimal writings |
| CsvTable.SyntheticHeaders | offline4/parser.hpp:73-78 | the made-up headers for rows of width k; SyntheticHeadersShape states their shape |
| CsvTable.SyntheticHeadersShape | offline4/parser.hpp:73-78 | k headers: the first k-1 are "Feature" and the numbers 1..k-1, the last is "Label", and they are distinct |
| CsvTable.Parse | offline4/parser.hpp:10-82 | an unopenable file or no kept rows gives empty headers and data; otherwise the data are the kept rows, and the headers are the header line's row or the synthetic headers for the first row's width |
| CsvTable.ColumnMax | offline4/parser.hpp:91-96 | the longest text of a column: at least the header's length and every shown cell's length in that column, and equal to one of them |
| CsvTable.ColumnWidths | offline4/parser.hpp:88-99 | one width per header, each exactly min(longest text of the column + 2, 15), the longest text taken over the header and the first min(num_rows, rows) data rows that have that column |
| CsvTable.Display | offline4/parser.hpp:123-126 | a cell that fits in width-2 is unchanged, and so is every cell when the width is below 2, since the comparison is unsigned; a longer one becomes its first width-5 characters followed by "...", or all of it and "..." when width-5 is negative |
| CsvTable.Pad | offline4/parser.hpp:127 | left-aligned padding to the width: the value followed by spaces, never shortened |
| CsvTable.ShownCellsFit | offline4/parser.hpp:120-128 | every shown cell is displayed in at most width-2 characters; it is cut only in a full-width column, to 10 characters and "..."; padded, it is exactly the column's width |

## Left out

- The Python user interface, the file-polling game protocol, the console game loop, the pybind11 bindings and the build script are user interface and I/O.
- `RandomizedMaxCut`, `SemiGreedyMaxCut`, `call_local_search`, `GRASP` and both `main` functions of the max-cut programs are left out. They depend on `rand()`, on floating-point thresholds and averages, or on argument and input parsing.
- `offline4/tree.cpp` is not part of this model.
- The printing in `print_formatted_table` is not modelled: the horizontal lines and the stream calls. Only the widths and the text of each cell are.
- Opening and reading the CSV file is not modelled. `CsvTable.Parse` takes the file as its sequence of lines, or None when it cannot be opened. A line is taken as already split at newlines.
- Default arguments are not modelled: every caller passes them. These are `skip_first_col` and `header_exists` (both true by default) of `parse`, `num_rows` (10) of `print_formatted_table`, `force` (false) of `insert_orb`, and the AI's `depth` (4).
- Machine integers are not modelled. Sums and counts are unbounded integers, and INT_MIN and INT_MAX appear only as the search's sentinel values.
- ChainBoard.Board.InsertOrb: runs the cascade for at most `fuel` visits and reports whether the queue emptied. The program's loop has no bound and its termination is not established. Every member that places an orb (`ChainRules.Place`, both `MakeMove` methods, `ChainPlayer.AI.Minimax`) takes the same bound.
- ChainSearch.AlphaBetaCorrect: also requires the window to lie within INT_MIN..INT_MAX.
- ChainSearch.FullWindowExact: also requires at most 700,000,000 cells. That keeps every evaluation strictly between the sentinels.
- ChainPlayer.AI.Minimax: the depth is a natural number. A negative depth in the program would recurse without reaching 0.
- MaxCutSets.GreedyMaxCut: requires some scanned weight to exceed -1. Otherwise the program seeds with uninitialised values.
- MaxCutPartition.GreedyMaxCut: requires a non-empty edge list whose first edge has both endpoints below the vertex count. The program reads `edges[0]` unchecked, which is undefined for an input without edges.
- MaxCutSets.LocalSearch: requires disjoint sides, vertex 0 on neither side, and an undirected weight matrix without self-weights (as the program builds it). Under these, each move provably raises the cut, so the loop ends.
- MaxCutPartition.LocalSearch: requires every vertex 1..n-1 to start on a side, and an undirected weight matrix without self-weights. A vertex labelled -1 would be flipped by `!` to 0. With negative weights the loop could then revisit a labelling and not end.
- MaxCutPartition.CutWeightOfSides: requires every vertex id and every edge endpoint to be below \|x\| + \|y\| + 1. The program indexes its vector out of bounds otherwise.
- MaxCutSets.MaxWeightEdge: when no scanned weight exceeds -1 (no list is scanned, or every scanned weight is -1 or less), the program returns uninitialised values. The model reports `found == false` and the pair is unconstrained.

## Findings

| source | as written | input that shows it | evidently intended | confidence | as-written member | corrected member |
|---|---|---|---|---|---|---|
| offline2/main.cpp:36 | `maxWeightEdge` takes `u = list[i][0]`, the first neighbour of i, and scans weight[u][v] over i's neighbours v | the path 1 - 2 - 3 with weights 5: lists [2], [1, 3], [2]; every scanned pair is a vertex with itself or two non-adjacent vertices (weight 0), so the result is (2, 2) and the greedy cut puts vertex 2 on both sides | `u = i`, so the pair is a listed edge (i, v) of largest weight | not executed | MaxCutSets.MaxWeightEdgeRepeatsVertex | MaxCutSets.MaxWeightEdgeFixed |
