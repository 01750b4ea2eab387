# Connect-Four solver, modelled in Dafny

The repository is a Connect-Four engine. A 7×6 board is an array of 42
bytes, stored row by row from the bottom row up (cell `row*7+col`). A cell
holds 0 (empty), 1 (the engine, `PLAYER_IA`) or 2 (its opponent, `PLAYER`).

The current engine (`src/solver.rs`) does four things:

- It generates the children of a position by dropping a piece into every
  column whose top cell is empty.
- It detects the end of a game: a full top row, or four in a row for a
  player, found by counting runs along 6 rows, 7 columns and two families
  of diagonals, each scanned over 7 indices.
- It scores a position with a line-by-line heuristic.
- It runs a depth-limited minimax with alpha-beta pruning. At the root the
  search returns the column to play.

An earlier version of the engine (`solver/src/solver.rs`) differs in five
ways:

- It has no pruning.
- Its comparisons are strict.
- Its heuristic is constantly 0.
- Its diagonal scan is one index shorter.
- Its `solve` throws the search away.

`src/lib.rs` parses a text board of one character per cell and forwards to
the current engine.

The project proves these properties:

- Child generation yields exactly the legal drops, in ascending column
  order.
- The run-counting scan reports a win exactly when the player holds four in
  a row. This includes the column scan's early exit.
- The heuristic is bounded by ±2700, is 0 on the empty board, negates when
  the players are exchanged, and is unchanged by a left–right mirror.
- Alpha-beta returns the plain minimax value whenever that value lies inside
  the window, and the correct side of the window otherwise.
- Every score the search returns below the root lies in
  [−SCORE_MAX, SCORE_MAX].
- On a root that is not drawn, where player 2 has no four, and with a depth
  other than 1, `solve` returns a legal column: the last one, in scan order,
  whose child reaches the best value. Otherwise it returns 0,
  −SCORE_MAX or the evaluation, cast to usize.
- The earlier engine always answers 0 below the root. At the root it answers
  0 when `max_depth` is 1 or its game-over test holds, and the lowest legal
  column otherwise. Its shortened scan misses a real four.
- Parsing the text of any board gives the board back. Rendering a parsed
  42-character text gives the text back exactly when every character code
  lies in 48 .. 303.

The modules follow the source:

- `Boards`: the board, the gravity drop, `generate_next_position` and
  `is_draw`. The two engines behave identically here (one copies the board
  with `clone()`, the other by value), so they are modelled once.
- `Lines`: line geometry and the four-in-a-row predicate.
- `Terminal`: `player_won` and `is_game_over`. `player_won` is split into one
  method per scan section, and its diagonal range is a parameter.
- `Symmetry`: the player swap and the mirror.
- `Heuristic`: `evaluate_player_position`, with one method per section, and
  `evaluate_position`.
- `Search`: `minimax` and `solve`.
- `EarlySolver`: the earlier engine.
- `Lib`: `src/lib.rs`.

Plain minimax is written as a specification function, `Search.Score`. The
source's pruning search is a method proved against it.

## Model

| member | source | states |
|---|---|---|
| Boards.Idx | src/solver.rs:6-10 | the `boardValue!` index `row * WIDTH + col` of an on-board position lies in the 42-cell array, and row and column can be read back from it |
| Boards.CellUpdate | src/solver.rs:6-10 | writing one position through `boardValue!` changes that cell and no other |
| Boards.CellsDetermineBoard | src/solver.rs:6-10 | the 42 positions address every cell, so two boards are equal exactly when they agree on every position |
| Boards.Top | src/solver.rs:11-15 | while the `boardLastRowValue!` cell of a column is empty, the search for the lowest empty row of that column succeeds |
| Boards.TopEmptyIffRoom | src/solver.rs:86-97 | on a board that respects gravity, the top-row filter and the lowest-empty-row search agree in both directions |
| Boards.DrawIsFull | src/solver.rs:107-109 | on a board that respects gravity, is_draw holds exactly when no cell is empty; the same test is at solver/src/solver.rs:94-96 |
| Boards.GenerateNextPosition | src/solver.rs:86-99 | returns exactly `Children(b, player)`: the legal columns, each with the board after the drop |
| Boards.ChildrenAreLegalDrops | src/solver.rs:86-99 | every child is a legal column with the board after the drop; the columns strictly ascend; every legal column has a child |
| Boards.DropSetsLowestEmpty | src/solver.rs:89-97 | a drop writes `player` into the lowest empty cell of the column and nowhere else; it removes one empty cell and keeps gravity |
| Boards.LowestEmptyFrom | src/solver.rs:91-96 | the row found is empty and every row below it is occupied |
| Boards.NoChildrenIffDraw | src/solver.rs:107-109 | a position has no children exactly when its top row is full |
| Boards.ChildrenShrink | src/solver.rs:86-99 | each child has one empty cell fewer than its parent, so the search terminates |
| Lines.ScanSound | src/solver.rs:111-186 | a line reported by the scan, over any diagonal range, is a real four in a row |
| Lines.ScanComplete | src/solver.rs:147-183 | with k over 3 .. 9 every four on the board lies on a scanned line |
| Lines.RunStep | src/solver.rs:115-124 | one more cell extends the trailing run of the player by one or resets it to 0, and a four appears exactly when that run reaches four |
| Lines.NoRoomForFour | src/solver.rs:141-143 | once the run plus the cells left is below four, no four can follow, so the column scan's exit is harmless |
| Terminal.ScanRows | src/solver.rs:113-126 | answers whether some row holds four of the player |
| Terminal.ScanCols | src/solver.rs:129-145 | answers whether some column holds four, despite the early exit that compares against WIDTH |
| Terminal.ScanAnti | src/solver.rs:148-164 | answers whether some anti-diagonal (row + col = k) in the range holds four |
| Terminal.ScanDiag | src/solver.rs:167-183 | answers whether some diagonal (row = HEIGHT − k + col) in the range holds four |
| Terminal.AntiRunStep | src/solver.rs:150-162 | one column of the anti-diagonal walk turns the run so far into the run including that cell |
| Terminal.DiagRunStep | src/solver.rs:169-181 | the same for the diagonal walk, with off-board rows skipped |
| Terminal.PlayerWon | src/solver.rs:111-186 | the result is the scan over the given range; it is sound, and with the full range it holds exactly when the player has four in a row |
| Terminal.IsGameOver | src/solver.rs:101-105 | game over means a full top row, or a four of player 1 at a minimizing node, or a four of player 2 at a maximizing node |
| Symmetry.SwapLines | src/solver.rs:111-186 | every scanned line of the board with the players exchanged is the exchanged line |
| Symmetry.FourInSwap | src/solver.rs:111-186 | a line holds four of `p` exactly when its swap holds four of the other player |
| Symmetry.ScanWinsSwap | src/solver.rs:111-186 | player_won for `p` on `b` equals player_won for the other player on the swapped board |
| Symmetry.MirrorMirror | src/solver.rs:188-300 | mirroring twice gives the board back |
| Symmetry.MirrorLines | src/solver.rs:188-300 | under the mirror, rows reverse and column c becomes column 6 − c |
| Symmetry.MirrorAnti | src/solver.rs:245-270 | anti-diagonal k of the mirrored board is diagonal 12 − k read backwards |
| Symmetry.MirrorDiag | src/solver.rs:272-297 | diagonal k of the mirrored board is anti-diagonal 12 − k read backwards |
| Heuristic.Scan | src/solver.rs:197-211 | the run tally never exceeds the longest run, and longest plus empties never exceeds the line length |
| Heuristic.ScanCounts | src/solver.rs:196-218 | without the reset, count_player and max_player both equal the number of the player's cells, and count_empty equals the number of empty cells |
| Heuristic.ScanSwap | src/solver.rs:196-297 | exchanging the players in the line and in `p` leaves the tally unchanged |
| Heuristic.LineScoresCount | src/solver.rs:213-217 | row and diagonal scores depend only on the counts of the player's cells and of empty cells, so the order of cells does not matter |
| Heuristic.RowScore | src/solver.rs:213-217 | a row scores between 0 and 100 |
| Heuristic.ColScore | src/solver.rs:238-242 | a column scores between 0 and 100 |
| Heuristic.DiagScore | src/solver.rs:265-269 | a diagonal scores between 0 and 100 |
| Heuristic.PlayerScoreBounds | src/solver.rs:192-300 | evaluate_player_position lies in [0, 2700]: 27 lines of at most 100 each |
| Heuristic.EvaluationBounds | src/solver.rs:188-190 | evaluate_position lies in [−2700, 2700] |
| Heuristic.LineScoresSwap | src/solver.rs:196-297 | each line score is unchanged when the line and the player are swapped |
| Heuristic.PlayerScoreSwap | src/solver.rs:192-300 | evaluate_player_position of the swapped board for the other player equals the original |
| Heuristic.EvaluationSwap | src/solver.rs:188-190 | exchanging the players negates evaluate_position |
| Heuristic.EvaluationEmpty | src/solver.rs:188-190 | the empty board evaluates to 0 |
| Heuristic.LineScoresReverse | src/solver.rs:196-297 | reading a row or diagonal backwards leaves its score unchanged |
| Heuristic.RowScoresMirror | src/solver.rs:196-218 | the mirror leaves every row score unchanged |
| Heuristic.ColScoresMirror | src/solver.rs:221-243 | the mirror reverses the list of column scores |
| Heuristic.AntiScoresMirror | src/solver.rs:245-297 | the anti-diagonal scores of the mirror are the diagonal scores reversed |
| Heuristic.DiagScoresMirror | src/solver.rs:245-297 | the diagonal scores of the mirror are the anti-diagonal scores reversed |
| Heuristic.PlayerScoreMirror | src/solver.rs:192-300 | evaluate_player_position is unchanged by the left–right mirror |
| Heuristic.EvaluationMirror | src/solver.rs:188-190 | evaluate_position is unchanged by the left–right mirror |
| Heuristic.EvaluateRows | src/solver.rs:196-218 | the horizontal section adds up the row scores |
| Heuristic.EvaluateCols | src/solver.rs:221-243 | the vertical section, which resets the run on empty cells, adds up the column scores |
| Heuristic.AntiTallyStep | src/solver.rs:250-263 | one column of the anti-diagonal walk extends the tally by that cell, or leaves it when the cell is off the board |
| Heuristic.TallyAnti | src/solver.rs:247-263 | the counters after walking anti-diagonal k are the tally of that line |
| Heuristic.EvaluateAnti | src/solver.rs:245-270 | the anti-diagonal section adds up the anti-diagonal scores |
| Heuristic.DiagTallyStep | src/solver.rs:277-290 | one column of the diagonal walk extends the tally by that cell, or leaves it when the cell is off the board |
| Heuristic.TallyDiag | src/solver.rs:274-290 | the counters after walking diagonal k are the tally of that line |
| Heuristic.EvaluateDiag | src/solver.rs:272-297 | the diagonal section adds up the diagonal scores |
| Heuristic.EvaluatePlayerPosition | src/solver.rs:192-300 | the sum of the 27 line scores, between 0 and 2700 |
| Heuristic.EvaluatePosition | src/solver.rs:188-190 | player 1's score minus player 2's score, between −2700 and 2700 |
| Search.ScoreBounds | src/solver.rs:37-48 | every plain-minimax value lies in [−SCORE_MAX, SCORE_MAX] |
| Search.BestBounds | src/solver.rs:52-78 | the best of one or more children lies in [−SCORE_MAX, SCORE_MAX] |
| Search.BestMonotone | src/solver.rs:52-78 | taking the best over more children is never worse for the side to move |
| Search.BestBoundsChildren | src/solver.rs:52-78 | the best over the first n children bounds each of their values |
| Search.ChoiceIsLastBest | src/solver.rs:52-59 | the `>=` update leaves the root on the last column whose child reaches the best value |
| Search.RootIsLastBestColumn | src/solver.rs:52-64 | on an open root the answer is a legal column, the last of those whose child reaches the best value, and no child does better |
| Search.RootValueBounds | src/solver.rs:37-48 | the root's result lies in [−SCORE_MAX, SCORE_MAX] |
| Search.MaxStep | src/solver.rs:56-63 | one child of a maximizing loop: a cutoff happens exactly when the child's true value exceeds beta; otherwise the loop state advances |
| Search.MinStep | src/solver.rs:69-76 | one child of a minimizing loop: a cutoff happens exactly when the child's true value is below alpha; otherwise the loop state advances |
| Search.RootStep | src/solver.rs:56-59 | at the root the column moves to child i exactly when its value reaches the score so far |
| Search.FullWindowIsExact | src/solver.rs:25-27 | with the window [−SCORE_MAX, SCORE_MAX] the window property gives the exact minimax value |
| Search.MaxChild | src/solver.rs:54-64 | one pass of the maximizing loop either cuts off with a result that fits the node's value, or keeps the loop state over one more child |
| Search.MinChild | src/solver.rs:67-77 | one pass of the minimizing loop either cuts off with a result that fits the node's value, or keeps the loop state over one more child |
| Search.Minimax | src/solver.rs:29-84 | below the root the result equals plain minimax inside [alpha, beta], lies on the correct side outside it, and always lies in [−SCORE_MAX, SCORE_MAX]; solve's root call returns `RootValue` |
| Search.MaxNode | src/solver.rs:52-64 | the maximizing loop's score fits the best child value and lies in [−SCORE_MAX, SCORE_MAX]; at the root with the full window its column is the last best column |
| Search.MinNode | src/solver.rs:65-78 | the minimizing loop's score fits the worst child value and lies in [−SCORE_MAX, SCORE_MAX] |
| Search.AsUsize | src/solver.rs:26 | `depth as usize` and `r as usize` agree with the i32 value modulo 2^64 |
| Search.Solve | src/solver.rs:25-27 | the answer is the root value cast to usize; on an open root with depth ≠ 1 it is a legal column, the last one whose child reaches the best minimax value |
| EarlySolver.IsGameOver | solver/src/solver.rs:88-96 | the answer is the shortened scan for both players plus the draw test; a reported end is a real draw or four |
| EarlySolver.GameOverSwap | solver/src/solver.rs:88-92 | exchanging the players does not change whether the game is over |
| EarlySolver.LowestLegalFrom | solver/src/solver.rs:73-75 | the result is a legal column with no legal column before it, or WIDTH when none exists |
| EarlySolver.FirstChildIsLowestLegal | solver/src/solver.rs:73-86 | on a board that is not drawn, the first child is the lowest legal column |
| EarlySolver.RootResult | solver/src/solver.rs:43-68 | the root's answer is a column index below WIDTH: 0 when the search stops at the root, otherwise the lowest legal column |
| EarlySolver.Minimax | solver/src/solver.rs:26-71 | every call below the root returns 0, because every leaf returns the constant 0 of evaluate_position (solver/src/solver.rs:175-177) and the strict comparisons keep that 0; at the root the answer is 0 when the search stops there, and otherwise the lowest legal column |
| EarlySolver.Solve | solver/src/solver.rs:20-24 | always returns i32::MAX, whatever the board, depth and player |
| EarlySolver.MissedDiagonal | solver/src/solver.rs:153-170 | a gravity-respecting board on which player 1 has four in a row, yet the early is_game_over answers false and the full range finds the four |
| EarlySolver.NoFourOffDiagonal | solver/src/solver.rs:98-173 | on that board no line of the early scan holds four for either player |
| Lib.ParseBoard | src/lib.rs:7-13 | cell i is character i's byte minus 48 (wrapping), and cells past the text stay empty |
| Lib.DigitRender | src/lib.rs:9 | a character survives parse and render exactly when its code lies in 48 .. 303 |
| Lib.ParseRender | src/lib.rs:7-13 | parsing the text of any board gives the board back |
| Lib.RenderParse | src/lib.rs:7-13 | rendering a parsed full-length text gives it back exactly when every code lies in 48 .. 303 |
| Lib.Solve | src/lib.rs:15-18 | the parsed board goes to the engine's solve with the depth unchanged; on a root that is not drawn, where player 2 has no four, and with depth ≠ 1, the result is the last best legal column |
| Lib.IsGameOver | src/lib.rs:20-23 | the flag is negated on the way in, so `true` asks about player 1's four and `false` about player 2's |

## Left out

- The board dump in solver/src/solver.rs:29-40 is output only; the model keeps the returned value.
- `src/main.rs` and `solver/src/main.rs` are demo programs and are not part of this model.
- The `#[wasm_bindgen]` attributes and the `utils` module are binding plumbing and are not part of this model.
- `generate_next_position` is modelled as the finished sequence of its children. The source's iterator is lazy, but the result is the same because each child depends only on the parent.
- Search.Minimax: requires alpha ≤ beta within the i32 range. Every call in the source meets this, because solve passes [−SCORE_MAX, SCORE_MAX] and the loops update alpha or beta only after the cutoff test.
- Search.Minimax: at depth 0 only the call solve makes is specified (maximizing, full window). Other root calls do not occur in the source.
- Search.MaxNode, Search.MinNode: `score` (an i32) and `column` (a usize) are unbounded integers in the model. No overflow is lost: `score` starts at i32::MIN or i32::MAX and is then only compared and replaced by child results in [−SCORE_MAX, SCORE_MAX], and `column` is a column index, at most 6, so `column.try_into().unwrap()` cannot fail.
- The `depth + 1` additions are unbounded in the model. The source would overflow only near usize::MAX, which the depth of recursion (at most 42 plies) never reaches.
- The heuristic's i32 sums are unbounded in the model. They stay within ±2700, so i32 arithmetic never overflows.
- Lib.ParseBoard: a character whose byte is below '0' wraps, as in a release build. A debug build panics on that subtraction instead.
- Lib.ParseBoard: a text longer than 42 characters is excluded by a precondition, because the source panics on the out-of-range index.
- Search.AsUsize: usize is taken to be 64 bits wide. Compiled to wasm32 for the `#[wasm_bindgen]` exports, usize is 32 bits, and a negative root value comes back modulo 2^32 instead.
- EarlySolver.Minimax: `depth` and `max_depth` are natural numbers; usize wrap-around is not modelled.

## Findings

| source | as written | input that shows it | evidently intended | confidence | as-written member | corrected member |
|---|---|---|---|---|---|---|
| solver/src/solver.rs:154 | the rising-diagonal scan runs `k in 3..(WIDTH+HEIGHT-4)`, that is k = 3 .. 8 | player 1 on (0,3), (1,4), (2,5), (3,6), resting on player 2's pieces (`EarlySolver.MissedDiagonalBoard`): the early `is_game_over` answers false | `k in 3..(WIDTH+HEIGHT-3)`, as src/solver.rs:167 has it, which covers every diagonal of length four | not executed | EarlySolver.MissedDiagonal | Terminal.PlayerWon |
