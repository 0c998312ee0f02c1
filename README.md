# AlphaZero self-play engine: a verified model of its core

This project models, in Dafny, the sequential core of a Rust AlphaZero engine for a
19 × 19 five-in-a-row game. It proves properties of the model. The core has these parts:

- **Batch-size controller** (`ExecutorScope`, `batch_size.dfy`). `BatchSizeManager` holds a
  hysteresis rule that grows, holds or shrinks the batch ceiling from the observed
  task count. The scope feeds it `min(outstanding tasks, permits)` and forwards
  every reported change as a `SetBatchSize` command.
- **Monte Carlo tree** (`Mcts`, `mcts.rs`). The nodes live in an arena and refer to
  each other by index. The model covers:
  - lazy expansion, at most once per node;
  - one block of fresh children per expansion;
  - PUCT selection;
  - backing a value up along the path, inverting it at every player switch;
  - the visit-count policy.
- **Bit-packed board** (`Board`, `board.dfy`). 361 cells of 2 bits each are packed into
  91 bytes. The model covers:
  - setting and reading a cell;
  - the in-place colour flip;
  - the five-in-a-row detector;
  - the move generator and terminal scores;
  - `make_move`.
- **Coordinate compressor** (`Compressor`, `compressor.dfy`). A dense numbering of keys,
  kept in a map and a vector that are inverse to each other.
- **Adapter tensors** (`Adapter`, `adapter.dfy`):
  - the board as two one-hot 19 × 19 planes;
  - the per-move policy gathered from the network output and normalised;
  - a per-move policy scattered back onto a 19 × 19 grid.
- **Self-play** (`SelfPlay`, `generate_game.dfy`). The game loop records
  `(position, policy, switch)` for every turn. The backfill then labels each
  position with the final score, inverted once per later player switch.
- **Batched executor** (`BatchedExecutor`, `executor.dfy`). The loop inside `serve` is
  an event-driven state machine with these events:
  - the deadline;
  - a receive;
  - a command;
  - a task sent;
  - the senders closing.

  It keeps the batch ceiling, the doubling or reset wait window, the buffer, and the
  drain into paired inputs and responders. Each minted or cloned handle gets its own
  new result channel.

`GameTypes` (`game.dfy`) holds the shared vocabulary from `alpha_zero/game.rs`:
`MoveDescription`, `TerminationState`, the value inversion `Inverted`, and sums of
reals.

The game rules, the network evaluation, `sqrt` and `exp` are function parameters.
Scores and values are `real`.

Where the source updates state in place, the model is imperative Dafny:
- the controller and the scope are classes with fields;
- the tree is a class over a `seq` of nodes;
- `set_inplace` and `flip_players_inplace` work on an `array<bv8>`;
- the adapter fills local arrays in loops;
- the backfill and the executor's drain pop and push in loops.

Each method is proved against a specification function on values. The properties
are proved about those functions.

### Notes on the code's behaviour

- `pick_next_move` divides the exploration term by `1 + total_visits`, the sum over
  all sibling edges (mcts.rs:71), not by the edge's own visit count.
- `max_by` returns the **last** maximal element, so ties go to the last maximal
  edge (mcts.rs:76-80).
- The children are built by zipping the moves with the policy, so there are
  `min(|moves|, |policy|)` of them. But one node is pushed for **every** move
  (mcts.rs:141-162, 170-176).
- In `serve`, the size check after each `select!` arm ends the cycle whenever the
  buffer has reached the ceiling. This includes a `SetBatchSize` that lowers the
  ceiling below the buffer's length. So `max_batch - cur_len` never underflows
  (`StepBounded`). Instead, the batch then run can be larger than the new ceiling
  (`LoweredCeilingExample`).
- `SetBatchSize(0)` makes the next `recv_many` ask for zero tasks. That call
  returns 0, so the loop stops even with tasks waiting (`ZeroCeilingStops`).
- A receive of zero tasks while the buffer is non-empty fails the `assert!`. This
  happens when every sender is dropped while tasks are buffered; the model shows
  it as `Panicked`.
- `mcts.rs` has no tree-reuse operation; moving to a child is `get_next_state`.

## Model

| member | source | states |
|---|---|---|
| ExecutorScope.Initial | src/alpha_zero/executor_scope.rs:19-25 | a new controller starts with `current == max` and the given ratio |
| ExecutorScope.UpperBound | src/alpha_zero/executor_scope.rs:30-31 | the threshold never exceeds `max` |
| ExecutorScope.UpperBoundCeiling | src/alpha_zero/executor_scope.rs:30-31 | the threshold is `min(max, ceil(current * denom / num))`: `(u - 1) * num < current * denom` always, and `current * denom <= u * num` unless `u == max` |
| ExecutorScope.Shrunk | src/alpha_zero/executor_scope.rs:41 | the shrunk ceiling is `max(current * num / denom, 1)`: at least both, and equal to one of them |
| ExecutorScope.GrowBranch | src/alpha_zero/executor_scope.rs:32-39 | at or above the threshold the ceiling becomes `min(tasks, max)`, reported exactly when it changed |
| ExecutorScope.HoldBand | src/alpha_zero/executor_scope.rs:40-45 | for `current <= tasks < threshold` nothing changes and nothing is reported |
| ExecutorScope.ShrinkBranch | src/alpha_zero/executor_scope.rs:40-42 | below the ceiling it becomes `max(current * num / denom, 1)` and is always reported, even unchanged |
| ExecutorScope.StepDirection | src/alpha_zero/executor_scope.rs:27-46 | the ceiling rises only from the threshold on, falls only below it; a reported value is the new ceiling; no report means no change |
| ExecutorScope.TaskCountPreservesValid | src/alpha_zero/executor_scope.rs:27-46 | with `num <= denom`, `1 <= current <= max` is preserved |
| ExecutorScope.MaxChangeFacts | src/alpha_zero/executor_scope.rs:48-56 | the new max is always stored; the ceiling is clamped and reported exactly when it exceeded it |
| ExecutorScope.ZeroMaxUnderflows | src/alpha_zero/executor_scope.rs:27-56 | a new maximum of 0 clamps the ceiling to 0 and reports it, and the next `current * denom - 1` is negative |
| ExecutorScope.ControllerTable | src/alpha_zero/executor_scope.rs:27-46 | with max 100 and ratio 5/6: 80 tasks shrink 100 to 83, 90 hold at 83, 100 grow back, and a ceiling of 1 is reported again on 0 tasks |
| ExecutorScope.ObservedTasks | src/alpha_zero/executor_scope.rs:133 | the count fed to the controller is the smaller of outstanding tasks and permits |
| ExecutorScope.BatchSizeManager.constructor | src/alpha_zero/executor_scope.rs:19-25 | the fields start as `Initial(max, ratio)` |
| ExecutorScope.BatchSizeManager.OnTaskCountChange | src/alpha_zero/executor_scope.rs:27-46 | the new fields and the result are those of `TaskCountStep` |
| ExecutorScope.BatchSizeManager.ChangeMaxBatchSize | src/alpha_zero/executor_scope.rs:48-56 | the new fields and the result are those of `MaxChangeStep` |
| ExecutorScope.Scope.constructor | src/alpha_zero/executor_scope.rs:86-94 | the scope starts with the given permits, no task, no command, and a controller at `batch_size` with ratio 5/6 |
| ExecutorScope.Scope.Spawn | src/alpha_zero/executor_scope.rs:97-114 | spawning adds one outstanding task and sends no command |
| ExecutorScope.Scope.OnTasksCountChange | src/alpha_zero/executor_scope.rs:132-140 | the controller steps on `min(outstanding, permits)` and a reported ceiling is appended to the commands |
| ExecutorScope.Scope.IncreaseParallelism | src/alpha_zero/executor_scope.rs:116-120 | the permits grow by `delta` before the re-evaluation |
| ExecutorScope.Scope.SetBatchSize | src/alpha_zero/executor_scope.rs:122-130 | a clamp command first if the ceiling was lowered, then the re-evaluation's command |
| ExecutorScope.Scope.Next | src/alpha_zero/executor_scope.rs:142-146 | one outstanding task completes if any, then a re-evaluation |
| Board.Code | src/tictactoe/board.rs:41-45 | a cell's stored code is 0, 1 or 2 |
| Board.Shift | src/tictactoe/board.rs:39-46 | the shift of a field lies below the byte width |
| Board.ShiftIsTwiceOffset | src/tictactoe/board.rs:39-46 | field `offset` sits `2 * offset` bits up |
| Board.FieldIsShift | src/tictactoe/board.rs:138-144 | reading a field is the source's shift right by `2 * offset` and mask with 3 |
| Board.WithFieldIsShift | src/tictactoe/board.rs:38-46 | writing a field is the source's clear with `!(3 << 2 * offset)` then or with `v << 2 * offset` |
| Board.FieldWithField | src/tictactoe/board.rs:38-46 | writing one 2-bit field of a byte sets that field and leaves the other three |
| Board.SetCodeFrame | src/tictactoe/board.rs:32-47 | writing a code at a flat index changes that code only, and no unused high bit |
| Board.Decode | src/tictactoe/board.rs:138-150 | decoding inverts the encoding of a cell |
| Board.CoordOfFlat | src/tictactoe/board.rs:34 | the row-major flat index `x * 19 + y` is a bijection onto `0..361` |
| Board.SetCellFrame | src/tictactoe/board.rs:32-47 | setting a cell keeps the board well formed, sets that cell and keeps every other |
| Board.SetThenIndex | src/tictactoe/board.rs:49-52 | after `set(c, s)`, `index(c)` is `s` and every other coordinate reads as before |
| Board.NewIsEmpty | src/tictactoe/board.rs:28-30 | a new board has 91 bytes and every cell is `Empty` |
| Board.SwapCodeDecode | src/tictactoe/board.rs:57-61 | the code-level swap swaps X and O and keeps `Empty` |
| Board.FlipUpToCells | src/tictactoe/board.rs:54-65 | after flipping the first `k` cells, exactly those cells are colour-swapped |
| Board.FlipPlayersCells | src/tictactoe/board.rs:67-70 | `flip_players` swaps X and O at every cell and keeps `Empty` |
| Board.FlipInvolution | src/tictactoe/board.rs:67-70 | flipping twice gives back the original board |
| Board.SetInplace | src/tictactoe/board.rs:32-47 | the array afterwards holds the bytes of `Set(old board, c, s)` |
| Board.StoreField | src/tictactoe/board.rs:38-46 | the chunk becomes `(old & !(3 << sh)) \| (v << sh)` and no other byte changes |
| Board.FlipPlayersInplace | src/tictactoe/board.rs:54-65 | the double loop leaves the bytes of `FlipPlayers(old board)` |
| Board.FlipStep | src/tictactoe/board.rs:57-62 | flip step `k` keeps the board well formed, swaps the colour of cell `k - 1` only and keeps the unused high bits |
| Board.FlipRow | src/tictactoe/board.rs:56-63 | the inner loop over row `i` extends the flip from cell `i * 19` to cell `i * 19 + 19` |
| Board.FlipCell | src/tictactoe/board.rs:57-62 | one step of the double loop flips one more cell in row-major order |
| Board.RangeIsInBounds | src/tictactoe/board.rs:73-85 | a start cell lies in the direction's ranges exactly when all five cells it reads are on the board |
| Board.WinFromSound | src/tictactoe/board.rs:76-97 | a colour returned by the scan has five in a row |
| Board.FiveHasStartColour | src/tictactoe/board.rs:79-90 | a line of five has the colour of its first cell |
| Board.WinFromComplete | src/tictactoe/board.rs:76-97 | an `Empty` result means no line of five, of any colour, starts at or after the scan position |
| Board.NoFiveNextDirection | src/tictactoe/board.rs:76-77 | the start cells after the last row of a direction are those of the next direction |
| Board.NoFiveNextRow | src/tictactoe/board.rs:77-78 | the start cells after the last column of a row are those of the next row |
| Board.NoFiveNextCell | src/tictactoe/board.rs:78-93 | a start cell without a line of five, followed by later ones without, leaves none from it on |
| Board.ScanCell | src/tictactoe/board.rs:79-92 | a start cell with five of its own colour is the scan's answer, one without passes to the next cell, and an `Empty` cell never starts a five |
| Board.ScanRowEnd | src/tictactoe/board.rs:77-94 | past the last column the scan continues with the next row |
| Board.ScanDirectionEnd | src/tictactoe/board.rs:76-95 | past the last row the scan continues with the next direction |
| Board.ScanRow | src/tictactoe/board.rs:78-93 | the `y` loop returns the scan's answer from the row's first cell, or reports that the row holds no winner |
| Board.ScanDirection | src/tictactoe/board.rs:77-94 | the `x` loop returns the scan's answer from the direction's first cell, or reports that the direction holds no winner |
| Board.WinnerCorrect | src/tictactoe/board.rs:72-98 | the winner has five in a row; `Empty` exactly when neither colour has |
| Board.IsWin | src/tictactoe/board.rs:72-98 | the nested loop with early return computes `Winner` |
| Board.LineMatches | src/tictactoe/board.rs:84-92 | the inner `k` loop succeeds exactly when the five cells all hold `goal` |
| Board.EmptyFromUnfold | src/tictactoe/board.rs:111-119 | the generator lists index `k` first exactly when it is empty |
| Board.EmptyFromSound | src/tictactoe/board.rs:111-119 | every listed move is an on-board empty cell with `player_switch = true` |
| Board.EmptyFromSorted | src/tictactoe/board.rs:111-119 | the moves are in strictly increasing row-major order |
| Board.EmptyFromComplete | src/tictactoe/board.rs:111-119 | every empty cell from index `k` on is listed |
| Board.EmptyFromNone | src/tictactoe/board.rs:111-125 | nothing is listed from index `k` exactly when no cell from `k` on is empty |
| Board.ConsSorted | src/tictactoe/board.rs:111-119 | a move before a row-major sorted list keeps it sorted |
| Board.Cells | src/tictactoe/board.rs:111-114 | the decoded cells in row-major order, 361 of them |
| Board.CellsIndex | src/tictactoe/board.rs:111-114 | reading a coordinate is reading `Cells` at its flat index |
| Board.NoMovesIffFull | src/tictactoe/board.rs:121-125 | no move is listed exactly when every cell is occupied |
| Board.GetStateKinds | src/tictactoe/board.rs:104-126 | the result is `Terminal(1)` iff X wins, `Terminal(0)` iff O wins, `Terminal(0.5)` iff nobody wins on a full board, and moves otherwise |
| Board.EmptyCellsSound | src/tictactoe/board.rs:111-119 | every move of a board is a switching move onto an empty on-board cell |
| Board.EmptyCellsComplete | src/tictactoe/board.rs:111-119 | every empty cell of a board is listed as a switching move |
| Board.GetStateMoves | src/tictactoe/board.rs:104-126 | the moves of a non-terminal board are exactly its empty cells in row-major order |
| Board.MakeMoveCells | src/tictactoe/board.rs:128-132 | after `make_move(m)` the moved-to cell is O and every other cell is colour-swapped |
| Mcts.NodeGetStateExpanded | src/alpha_zero/mcts.rs:38-40 | an expanded node returns `None` and is unchanged, whatever the calculation |
| Mcts.NodeGetStateOnce | src/alpha_zero/mcts.rs:41-43 | a fresh node stores the calculated state and returns its extra result; a second call does nothing |
| Mcts.Scores | src/alpha_zero/mcts.rs:56-73 | entry `i` is `mean + c * prior * sqrt(total) / (1 + total)`, with mean 0 for an unvisited edge |
| Mcts.ArgMaxLast | src/alpha_zero/mcts.rs:74-81 | the index of a maximum, strictly greater than every later entry (`max_by` keeps the last maximum) |
| Mcts.PickNextMove | src/alpha_zero/mcts.rs:48-82 | the chosen edge has a maximal score, and every later edge scores strictly less |
| Mcts.NewChildren | src/alpha_zero/mcts.rs:141-162 | one edge per zipped pair: index `nodes_cnt + i`, prior `policy[i]`, the move's switch, no visits |
| Mcts.NewNodes | src/alpha_zero/mcts.rs:170-176 | one unexpanded node per move, holding the position after that move |
| Mcts.ExpandAtShape | src/alpha_zero/mcts.rs:117-176 | a terminal expansion stores the score, no edges and no node; otherwise it appends one node per move and links edge `i` to `|nodes| + i` |
| Mcts.BumpFrame | src/alpha_zero/mcts.rs:196-199 | crediting an edge adds the value and one visit to it and changes no other edge or shape |
| Mcts.BackpropSkeleton | src/alpha_zero/mcts.rs:190-200 | backpropagation keeps every position, node state and edge shape |
| Mcts.BackpropOffPath | src/alpha_zero/mcts.rs:190-200 | an edge off the path is unchanged |
| Mcts.BackpropUnfold | src/alpha_zero/mcts.rs:190-200 | one pop credits the last edge and continues with the rest of the path |
| Mcts.BackpropLast | src/alpha_zero/mcts.rs:190-200 | the last edge on the path gets one visit and the value, inverted if its move switched |
| Mcts.BackpropOnPath | src/alpha_zero/mcts.rs:190-200 | edge `k` on the path gets one visit and the leaf value inverted once per switch from `k` to the leaf |
| Mcts.PopStep | src/alpha_zero/mcts.rs:190-200 | one iteration of the popping loop preserves what remains to be done |
| Mcts.SameSkeletonArena | src/alpha_zero/mcts.rs:190-200 | a change of statistics only keeps the arena well formed and grows it |
| Mcts.Expanded | src/alpha_zero/mcts.rs:167-178 | after the descent's expansion the leaf is expanded, and an expanded leaf is left as it was |
| Mcts.ExpandAtKeepsEdges | src/alpha_zero/mcts.rs:167-176 | expanding a fresh node leaves every existing edge as it was |
| Mcts.ExpandAtArena | src/alpha_zero/mcts.rs:141-176 | expansion keeps every stored child index below the arena length and after its parent |
| Mcts.PathIncreasing | src/alpha_zero/mcts.rs:185-187 | along a descent the node indices strictly increase and stay below the leaf |
| Mcts.PathInit | src/alpha_zero/mcts.rs:190-200 | dropping the last edge of an increasing path keeps it increasing and keeps the earlier edges, none equal to the dropped one |
| Mcts.LinkedSnoc | src/alpha_zero/mcts.rs:185-187 | a linked path followed by an edge out of its leaf is linked to that edge's child |
| Mcts.PathToSnoc | src/alpha_zero/mcts.rs:181-187 | at an expanded non-terminal node there are children, the picked child lies after the node in the arena, and the descent path extends by that edge |
| Mcts.ExpandedKeeps | src/alpha_zero/mcts.rs:167-178 | the descent's expansion keeps the arena well formed, grows it, expands the leaf, and keeps every edge and the path's switches |
| Mcts.BackpropStats | src/alpha_zero/mcts.rs:190-200 | backpropagation keeps the arena well formed, grows it with the same shape, credits each path edge and leaves every other edge |
| Mcts.SimulatedStats | src/alpha_zero/mcts.rs:112-200 | a simulation keeps the arena well formed and grows it, credits exactly the path's edges, and leaves every other edge unchanged |
| Mcts.TotalVisitsOneMore | src/alpha_zero/mcts.rs:49-53 | one more visit on one edge adds one to the total |
| Mcts.SiblingOffPath | src/alpha_zero/mcts.rs:185-187 | an edge of the start node other than the first one taken is not on the path |
| Mcts.SimulatedRootVisit | src/alpha_zero/mcts.rs:112-200 | from an expanded non-terminal node a simulation adds exactly one visit to its edges |
| Mcts.NodeExpandedAfter | src/alpha_zero/mcts.rs:167-178 | after a simulation its start node is expanded and keeps its terminal flag |
| Mcts.MonteCarloTree.constructor | src/alpha_zero/mcts.rs:96-108 | a new tree has exactly one node, the unexpanded root at index 0 |
| Mcts.MonteCarloTree.Descend | src/alpha_zero/mcts.rs:116-188 | the descent follows `pick_next_move`, stops at the first fresh or terminal node, expands it and returns its value |
| Mcts.MonteCarloTree.ExpandNode | src/alpha_zero/mcts.rs:117-178 | `get_state` plus the pushes give the expanded arena; the descent stops exactly at a fresh or terminal node |
| Mcts.MonteCarloTree.PushNodes | src/alpha_zero/mcts.rs:170-176 | the pushes append one unexpanded node per move, in order |
| Mcts.MonteCarloTree.Backpropagate | src/alpha_zero/mcts.rs:190-200 | the popping loop leaves exactly `BackpropFrom(old arena, path, value)` |
| Mcts.MonteCarloTree.Simulate | src/alpha_zero/mcts.rs:112-201 | one iteration of `do_simulations` leaves `Simulated(old arena, path, leaf)` |
| Mcts.MonteCarloTree.DoSimulations | src/alpha_zero/mcts.rs:110-202 | `n` simulations keep the arena well formed and only grow it; the start node ends up expanded; from an expanded non-terminal start its edges gain exactly `n` visits |
| Mcts.MonteCarloTree.GetPolicy | src/alpha_zero/mcts.rs:204-214 | one entry per edge, `descends_i / Σ descends`, non-negative and summing to 1 |
| Mcts.MonteCarloTree.GetNextState | src/alpha_zero/mcts.rs:216-218 | the child index of the edge, which lies after the node and inside the arena |
| Mcts.VisitCounts | src/alpha_zero/mcts.rs:208-211 | the edges' visit counts in order |
| Mcts.VisitCountsSum | src/alpha_zero/mcts.rs:212 | the visit counts sum to the total visits |
| Mcts.PolicyFacts | src/alpha_zero/mcts.rs:204-214 | the visit shares are non-negative and sum to 1 when there is a visit |
| GameTypes.InvertedParity | src/alpha_zero/generate_game.rs:49-51 | inverting `n` times gives the value for even `n` and its complement for odd `n` |
| GameTypes.CountTrueStep | src/alpha_zero/generate_game.rs:48-52 | counting the switches of a suffix one step earlier adds that step's switch |
| GameTypes.InvertedAdd | src/alpha_zero/mcts.rs:190-200 | inverting `a` times and then `b` times is inverting `a + b` times |
| GameTypes.CountTrueAppend | src/alpha_zero/mcts.rs:190-200 | counting switches over a concatenation adds the counts |
| GameTypes.Divided | src/tictactoe/alpha_zero_adapter.rs:39-41 | every entry divided by the divisor |
| GameTypes.SumDivided | src/tictactoe/alpha_zero_adapter.rs:37-42 | dividing every entry divides the sum |
| GameTypes.Normalised | src/tictactoe/alpha_zero_adapter.rs:37-42 | dividing by a positive sum gives entries summing to 1, non-negative if they were |
| Compressor.Injective | src/coord_compressor.rs:3-6 | distinct indices hold distinct keys |
| Compressor.InsertKeepsBijection | src/coord_compressor.rs:24-28 | numbering a new key with `back.len()` and appending it keeps `fwd[back[i]] == i` and `|fwd| == |back|` |
| Compressor.KeysListed | src/coord_compressor.rs:3-6 | a key is in `fwd` exactly when it is in `back` |
| Compressor.CoordCompressor.constructor | src/coord_compressor.rs:9-14 | both tables start empty |
| Compressor.CoordCompressor.Compress | src/coord_compressor.rs:23-30 | a new key gets the old `back.len()` and is appended; a known key keeps its index and nothing changes; `back[idx] == v` either way |
| Compressor.CoordCompressor.Decompress | src/coord_compressor.rs:32-34 | for `idx < |back|`, the key whose number is `idx` |
| Adapter.Tensor3 | src/tictactoe/alpha_zero_adapter.rs:23 | the `2 × 19 × 19` view of the filled array, entry by entry |
| Adapter.Tensor2 | src/tictactoe/alpha_zero_adapter.rs:54 | the `19 × 19` view of the filled array, entry by entry |
| Adapter.ConvertGameToNnInput | src/tictactoe/alpha_zero_adapter.rs:10-26 | a `2 × 19 × 19` 0/1 tensor, 1 in plane 0 exactly at X and in plane 1 exactly at O, never in both |
| Adapter.Gathered | src/tictactoe/alpha_zero_adapter.rs:30-35 | entry `k` is the exponentiated output at flat index `i * 19 + j` of move `k` |
| Adapter.GetEstimatedPolicy | src/tictactoe/alpha_zero_adapter.rs:28-47 | one entry per move; divided by the sum when it is positive, then summing to 1 and non-negative; unchanged otherwise |
| Adapter.LastHit | src/tictactoe/alpha_zero_adapter.rs:51-53 | the last of the first `n` moves at a cell, or none |
| Adapter.ConvertPolicyToNn | src/tictactoe/alpha_zero_adapter.rs:49-55 | each cell holds the policy entry of the last zipped move there, 0 if none; pairs past the shorter list are ignored |
| Adapter.WrittenFacts | src/tictactoe/alpha_zero_adapter.rs:51-53 | an unnamed cell stays 0 and the last pair's cell holds its entry |
| SelfPlay.BackfilledRecurrence | src/alpha_zero/generate_game.rs:48-53 | each label is the next one (or the final score), inverted if the entry's own move switched |
| SelfPlay.BackfilledNoSwitch | src/alpha_zero/generate_game.rs:49-52 | with no switching move every entry carries the final score |
| SelfPlay.BackfilledParity | src/alpha_zero/generate_game.rs:49-52 | each label is the score or its complement, by the parity of the later switches |
| SelfPlay.Reverse | src/alpha_zero/generate_game.rs:54 | the reversed sequence, entry by entry |
| SelfPlay.BackfillStep | src/alpha_zero/generate_game.rs:48-52 | the pop of entry `i` pushes its position and policy with the carried value, inverted if its move switched: the `i`-th label |
| SelfPlay.SnocBackwards | src/alpha_zero/generate_game.rs:52 | pushing the next label keeps the result the labels read backwards |
| SelfPlay.ReverseBack | src/alpha_zero/generate_game.rs:54 | reversing the labels read backwards gives the labels |
| SelfPlay.Backfill | src/alpha_zero/generate_game.rs:47-55 | pop, push and reverse give `Backfilled(history, value)`: same length, same order, entry `i` inverted once per switch among entries `i..` |
| SelfPlay.RecordedSnoc | src/alpha_zero/generate_game.rs:39-43 | recording a turn extends the recorded game by the chosen move |
| SelfPlay.PlayGame | src/alpha_zero/generate_game.rs:21-45 | entry `i` holds the position before move `i`, its policy and its switch; the loop ends exactly at a terminal position, with its score |
| SelfPlay.GenerateSelfPlayedGame | src/alpha_zero/generate_game.rs:7-56 | the recorded game labelled by the backfill with its terminal score |
| BatchedExecutor.Start | src/alpha_zero/network_batched_executor.rs:87-95 | `serve` runs exactly when `max_batch > 0`, with an empty buffer and the base window |
| BatchedExecutor.Drained | src/alpha_zero/network_batched_executor.rs:151-154 | draining gives inputs and responders in reverse arrival order, row `i` of both from the same task |
| BatchedExecutor.DrainedArrival | src/alpha_zero/network_batched_executor.rs:151-154 | the drained batch read backwards is the buffer |
| BatchedExecutor.StepBounded | src/alpha_zero/network_batched_executor.rs:104-134 | `buf.len() <= max_batch` holds after every event, so the subtraction never underflows; a panic needs a receive of zero with a non-empty buffer |
| BatchedExecutor.EndCycleKeepsTasks | src/alpha_zero/network_batched_executor.rs:143-154 | ending a cycle moves the buffer into the batches without changing any task |
| BatchedExecutor.ReceiveKeepsTasks | src/alpha_zero/network_batched_executor.rs:110 | a receive moves tasks from the front of the channel to the end of the buffer |
| BatchedExecutor.SendKeepsTasks | src/alpha_zero/network_batched_executor.rs:40-45 | a task sent while `serve` runs joins the end of everything sent |
| BatchedExecutor.StepKeepsTasks | src/alpha_zero/network_batched_executor.rs:100-135 | no task is lost, duplicated or reordered; only a send adds one, at the end |
| BatchedExecutor.StepBatches | src/alpha_zero/network_batched_executor.rs:131-154 | a batch runs only at a cycle's end, holds at least one task and at most the ceiling before the event; the window is then reset |
| BatchedExecutor.EndCycleWindow | src/alpha_zero/network_batched_executor.rs:143-149 | an empty cycle doubles `acc_time` and runs nothing; a non-empty one resets it and runs the buffer |
| BatchedExecutor.StopsOnlyEmpty | src/alpha_zero/network_batched_executor.rs:110-116 | the loop stops only on a receive of zero tasks with an empty buffer |
| BatchedExecutor.LoweredCeilingExample | src/alpha_zero/network_batched_executor.rs:124-134 | lowering the ceiling to 2 with 3 buffered tasks runs a batch of 3 |
| BatchedExecutor.ZeroCeilingStops | src/alpha_zero/network_batched_executor.rs:110-116 | after `SetBatchSize(0)` the next receive stops the loop with a task still waiting |
| BatchedExecutor.Server.constructor | src/alpha_zero/network_batched_executor.rs:86-95 | the fields start as `Start(max_batch, base, …)` |
| BatchedExecutor.Server.Drain | src/alpha_zero/network_batched_executor.rs:151-154 | the `buf.pop()` loop gives `Drained(buf)` |
| BatchedExecutor.Server.FinishCycle | src/alpha_zero/network_batched_executor.rs:143-181 | the fields become `EndCycle(base, old state)` |
| BatchedExecutor.Server.BreakIfFull | src/alpha_zero/network_batched_executor.rs:131-134 | the fields become `CheckFull(base, old state)` |
| BatchedExecutor.Server.Handle | src/alpha_zero/network_batched_executor.rs:103-134 | the fields become `Step(base, old state, event)` |
| BatchedExecutor.Executor.constructor | src/alpha_zero/network_batched_executor.rs:53-60 | a new executor owns a new task channel |
| BatchedExecutor.Executor.MintHandle | src/alpha_zero/network_batched_executor.rs:62-70 | the handle sends to this executor and has a new result channel of capacity 1 |
| BatchedExecutor.CloneHandle | src/alpha_zero/network_batched_executor.rs:27-37 | the clone shares the task channel but has its own new result channel of capacity 1 |
| BatchedExecutor.Execute | src/alpha_zero/network_batched_executor.rs:40-45 | a task is sent with the handle's own result channel as its responder |

## Left out

- The asynchronous parts are not modelled:
  - `tokio::select!` timing and fairness, and real time (deadlines are events, `acc_time` is a number);
  - the spawned reply tasks and the `MAX_PAR_RESPS` throttle;
  - the final drain of reply tasks;
  - the semaphore permits, `tokio::spawn`, `FuturesUnordered` and `join` of the executor scope.

  Their subject is concurrency, not the sequential rules.
- The network computation is not modelled: `Tensor::stack`, device transfers, `forward_t` and the rows of its outputs. A batch records which responder receives which input row.
- ExecutorScope.BatchSizeManager.OnTaskCountChange: it requires a ceiling of at least 1. With a ceiling of 0 the source computes `current * denom - 1` below zero at executor_scope.rs:31: a panic in a debug build, a wrap-around in a release build. The wrapped value and what follows it are not modelled; `ZeroMaxUnderflows` shows how `set_batch_size(0)` leads there.
- ExecutorScope.Scope.constructor: it requires a batch size of at least 1, because a batch size of 0 starts the controller at a ceiling of 0 and the first re-evaluation underflows as above.
- ExecutorScope.Scope.SetBatchSize: it requires a batch size of at least 1, because `set_batch_size(0)` clamps the ceiling to 0, sends `SetBatchSize(0)`, and the re-evaluation that follows underflows as above.
- ExecutorScope.MaxChangeFacts: it requires a new maximum of at least 1; the case of 0 is `ZeroMaxUnderflows`.
- `acc_time *= 2` on a `Duration` panics on overflow; `acc_time` is an unbounded number here. `usize` overflow in the controller is not modelled either.
- `f32` arithmetic is not modelled: values, priors and policies are `real`, and `sqrt`, `exp` and the network are parameters. So `pick_next_move`'s panic on incomparable (NaN) scores cannot occur in the model.
- Mcts.MonteCarloTree.GetPolicy: it requires at least one visit. With none, the source divides 0 by 0 in `f32` and yields NaN entries.
- Mcts.MonteCarloTree.DoSimulations: it requires the game and evaluation to be `Playable` (no empty move list, no empty policy). Otherwise a later descent through such a node reaches the `unwrap` of an empty `max_by`.
- Mcts.MonteCarloTree.Descend: the network call reaches the tree as the `evaluate` parameter. This parameter stands for `execute` on the handle followed by `get_estimated_policy`; the two are not composed in the model.
- Board.SetInplace: the source panics on coordinates of 19 or more (`assert!`). The model requires coordinates below 19, and so do `Index`, `Set` and `MakeMove`.
- Adapter.GetEstimatedPolicy: it requires every move's flat index to lie inside the network output. Adapter.ConvertPolicyToNn requires the paired moves to lie on the board. The source panics on an out-of-range index in both. The order of `f32` additions in the sum is not modelled.
- SelfPlay.PlayGame:
  - It plays at most `fuel` turns, because the source's loop need not terminate. `None` means the turns ran out.
  - The tree calls in the loop (`do_simulations`, `get_policy`, `sample_policy` with `thread_rng`, `do_move`) do not match the tree's own signatures. They are one parameter, `choose`, which must return one of the offered moves.
- BatchedExecutor.Step: a receive while `recv_many` would still be waiting (positive limit, empty open channel) leaves the state unchanged, as an event that has not fired. A closed command channel (`None`) changes nothing, as in the source's `continue`.
- The debug printing, invocation counters and timers of `serve` are not modelled.
- Compressor.CoordCompressor.constructor: `with_capacity` is the same as `new` here, because the capacity is only an allocation hint.
- The neural network, the policy sampler, image rendering, the process entry point and the battle code are outside this model.
