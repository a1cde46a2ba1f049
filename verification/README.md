# Knight's Tour solver — a Dafny model

This project models the Knight's Tour solver in `test.java`. The solver looks for
a knight's route that visits every square of an 8×8 board exactly once. It
works on a 12×12 array in which the two outer rings hold `-1`, so that no
knight move from a playable square can leave the array. A square holding 0 is
free, and a square holding `k > 0` is the k-th square of the route.

Three routines share the board:

- `countNeighbors` gives the onward degree of a square.
- `neighbors` lists the free squares a knight's move away, each with its
  degree.
- `orphanDetected` is a one-step lookahead that prunes a branch when some free
  neighbour of the square just numbered has no free square left.

`solve` is a depth-first backtracking search. It sorts the candidates by
ascending degree (Warnsdorff's rule; `List.sort` is stable, so ties keep
move-table order). For each candidate it numbers the square, runs the
lookahead, recurses, and resets the square to 0 when the branch fails.

The model has two layers:

- **Functional.** The board is a value `Grid = seq<seq<int>>`. Each routine is
  a function on it (`Degree`, `Neighbours`, `Orphan`, `Solve`/`Try`/`Attempt`),
  and numbering a square is `Mark`. A call's `Outcome` carries the board the
  search leaves behind. The properties are proved on this layer.
- **In place.** This layer mirrors the Java: one `array2<int>`, loops over the
  move table, and `solve` writing and resetting squares in the array. Each
  method is proved to compute its functional counterpart on the array's
  current contents.

Modules:

- `Board`: size, padding, move table, `Mark`, and the set-up board.
- `Adjacency`: degree and candidate list.
- `Ordering`: the stable sort by degree.
- `Search`: lookahead, `solve`, and the route a successful search takes.
- `Tour`: the whole run from a start square.
- `Pruning`: the search with the lookahead taken out, and the proof that the lookahead changes no result of a run.
- `InPlace`: the array version.

## Model

| member | source | states |
|---|---|---|
| Board.Target | test.java:141-146 | from a playable square every table move stays on the 12×12 array, so no access of `neighbors`/`countNeighbors` is out of bounds |
| Board.TargetIsKnightStep | test.java:32-41 | every entry of the move table is a knight's move |
| Board.MoveTableIsComplete | test.java:32-41 | the table has 8 entries with distinct targets, and a square is a knight's move away exactly when some entry reaches it |
| Board.Mark | test.java:115 | `grid[row][column] = v` sets that square and leaves every other square unchanged |
| Board.MarkUndo | test.java:119 | writing back the value a square held restores the board exactly, which is the undo of a failed branch |
| Board.MarkKeepsPadding | test.java:115 | numbering a playable square keeps the `-1` ring intact |
| Board.FreeIsPlayable | test.java:62-68 | on a padded board every square holding 0 is playable |
| Board.InitialGrid | test.java:59-68 | the set-up board has `-1` on the two outer rings and 0 on every playable square |
| Adjacency.FreeCount | test.java:166-170 | after the first `n` moves the counter is at most `n` |
| Adjacency.Degree | test.java:164-172 | `countNeighbors` returns at most 8 |
| Adjacency.DegreeCountsFreeMoves | test.java:164-172 | the degree equals the number of table moves whose target holds 0 |
| Adjacency.DegreeZero | test.java:164-172 | the degree is 0 exactly when no table move reaches a free square |
| Adjacency.Neighbours | test.java:138-150 | the candidate list has as many entries as the square's degree, hence at most 8 |
| Adjacency.NeighboursSound | test.java:141-147 | every entry is a playable square that holds 0, is a knight's move away, and carries its own `countNeighbors` value |
| Adjacency.NeighboursInTableOrder | test.java:141-147 | entries appear in move-table order, and every free square a table move reaches is listed |
| Ordering.SortByDegree | test.java:110 | the sorted list is ordered by degree, is a permutation of its input, and keeps the input order among entries of equal degree |
| Ordering.StableSortIsUnique | test.java:110 | two lists sorted by degree that agree on the order within each degree are equal, so any stable sort gives the same list |
| Ordering.StableSortMatches | test.java:110 | any stable sort by degree of a list equals `SortByDegree` of it |
| Ordering.SortedTiesInTableOrder | test.java:110 | sorting a list in move-table order leaves entries of equal degree in move-table order |
| Search.HasDeadEnd | test.java:190-194 | the scan of the candidate list finds a dead end exactly when some remaining entry has degree 0 |
| Search.Orphan | test.java:187-197 | `orphanDetected` is false whenever `count >= total - 1` |
| Search.OrphanMeaning | test.java:187-197 | below `total - 1`, `orphanDetected` is true exactly when some free knight neighbour of the square has degree 0 |
| Search.WarnsdorffOrder | test.java:110-112 | `solve` tries the candidates in non-decreasing degree, and squares of equal degree in move-table order |
| Search.Solve | test.java:99-123 | with `count > total` it succeeds and leaves the board untouched, and a failed search leaves the board exactly as it found it |
| Search.SolveIsLoop | test.java:104-112 | once past the two early exits, `solve` is the candidate loop over the sorted candidate list, and every sorted entry is a legal candidate |
| Search.Attempt | test.java:113-116 | numbering a candidate and searching on from it either succeeds or leaves the board with only that square numbered |
| Search.Try | test.java:112-122 | the candidate loop, when it fails, leaves the board as it was on entry |
| Search.TryStep | test.java:112-122 | a loop turn returns the first successful attempt and otherwise moves on to the next candidate on the restored board |
| Search.ExtendsStep | test.java:113-117 | the route of the recursive call, prefixed by the square just numbered, is a route of the caller |
| Search.SolveRoute | test.java:99-123 | a successful search numbers `count .. total` along a route of free playable squares, each a knight's move from the one before and starting next to `(row, column)`, and changes nothing off the route |
| Search.SolveKeepsNumbers | test.java:112-122 | a square that held a number or `-1` before the search holds it afterwards |
| Search.SolveKeepsPadding | test.java:62-68 | the `-1` ring survives the search |
| Tour.StartBoard | test.java:59-73 | the board handed to `solve` is padded, has the start square numbered 1, and has every other playable square free |
| Tour.StartTour | test.java:73-75 | a failed run leaves the board as it was set up |
| Tour.PlayableSquaresExact | test.java:60 | the playable region has exactly `total = (base-4)^2` squares |
| Tour.TourRoute | test.java:73-75 | a successful run numbers `total` distinct playable squares `1 .. total` along a knight's route from the start square |
| Tour.TourIsKnightsTour | test.java:73-75 | a successful run leaves a knight's tour: every playable square has a distinct number in `1 .. total`, consecutive numbers are a knight's move apart, and the ring is kept |
| Pruning.FreeSquaresAfterMark | test.java:115 | numbering a free square removes exactly that square from the free squares, so there is one fewer |
| Pruning.StartBoardFreeSquares | test.java:59-75 | the board handed to `solve` with `count = 2` has `total - 1` free squares, one for each number still to give |
| Pruning.RouteCoversFreeSquares | test.java:99-123 | when the free squares are as many as the numbers still to give, the route of a successful search passes through every free square |
| Pruning.RouteSquareHasFreeNeighbour | test.java:99-123 | on a route numbering at least two squares, each numbered square had a free knight neighbour before the search |
| Pruning.PruningIsSound | test.java:187-197 | when the free squares are exactly as many as the numbers still to give, a square `orphanDetected` prunes could not have led to a successful search |
| Pruning.AttemptIgnoresPruning | test.java:113-117 | when the board has one free square more than the numbers still to give after this one, an attempt with the lookahead gives exactly what numbering the square and searching on without it gives |
| Pruning.SolvePlain | test.java:99-123 | `solve` without the lookahead of line 116 keeps the contract of `solve`: immediate success past `total`, and a failed search leaves the board as it found it |
| Pruning.TryPlainStep | test.java:112-122 | a turn of its candidate loop returns the first successful search and otherwise moves on to the next candidate on the restored board |
| Pruning.SolveIgnoresPruning | test.java:99-123 | with the free squares one more than `total - count`, `solve` with the lookahead returns the same verdict and the same board as `solve` without it |
| Pruning.TryIgnoresPruning | test.java:112-122 | under the same count, the candidate loop with the lookahead equals the loop without it; the count is passed on to every recursive call |
| Pruning.StartTourIgnoresPruning | test.java:73-75 | from every start square, the run with the lookahead gives the same verdict and the same final board as the run without it |
| InPlace.Put | test.java:115 | writing one array cell is `Mark` on the board |
| InPlace.LayRow | test.java:63-67 | the inner set-up loop writes `-1` exactly on the ring squares of one row and leaves the other rows alone |
| InPlace.SetUpBoard | test.java:59-68 | the nested set-up loops produce the set-up board |
| InPlace.CountNeighbors | test.java:164-172 | the loop returns the square's degree, a value in `0 .. 8` |
| InPlace.Neighbors | test.java:138-150 | the loop builds exactly the functional candidate list |
| InPlace.OrphanDetected | test.java:187-197 | the early-exit loop returns exactly the functional lookahead |
| InPlace.NumberAndLook | test.java:115-116 | numbering the candidate, then running the lookahead on the updated array |
| InPlace.AttemptInPlace | test.java:113-117 | numbering a candidate and searching on in place gives the functional attempt |
| InPlace.TryInPlace | test.java:112-122 | the in-place loop, with its reset to 0, gives the functional candidate loop and restores the array after each failed candidate |
| InPlace.SolveInPlace | test.java:99-123 | in-place `solve` reports what `Solve` reports and leaves the array holding the board `Solve` returns |
| InPlace.RunTour | test.java:58-75 | `main` with a given start reports what `StartTour` reports, and on success the array holds a knight's tour |

## Left out

- `KnightsTour.size()` (test.java:18-30) is left out. It walks a concurrent linked list through `Node`/`first()`, which the file does not define, and has nothing to do with the solver.
- The random start square (test.java:70-71) is left out. The start square is a parameter, required to be playable.
- `printResult` and the "no result" message (test.java:76-78, 203-213) are left out, because they are console output.
- `test.ts` is left out. It is a TypeScript typing demo with no algorithmic behaviour.
- The static fields `grid` and `total` (test.java:43-44) are replaced. `grid` becomes a parameter, either a value or an array. `total` becomes the constant `Total`, because it depends only on `base`.
- `base` is fixed at 12, as in the source. Only this board size is modelled.
- Java's `int` is not modelled with 32-bit wrap-around. Grid values lie in -1 .. 64, and `count` never exceeds 65. The value 65 arises when line 116 recurses with `count == 64`, and it is kept to that by the requires of `Attempt` and `Try`.
- No completeness is claimed: nothing says a tour exists from every start square, and the code does not promise one. What is proved about the lookahead (`Pruning.StartTourIgnoresPruning`) is that a run with it gives the same result as a run without it.
- The guard `neighbor.isEmpty() && count != total` (test.java:106) is modelled as written, though it changes no result: with no candidates the loop fails anyway. When `count == total` the last square is numbered only if it has a free neighbour.
- The comments in `test.java` describe a Sudoku solver and a linked list. The model follows the code, not the comments.
