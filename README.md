# Connect-Four move search, modelled in Dafny

This project models the move-search core of a Connect-Four engine written in
Python (numpy). The core has three layers.

- **The board** (`agents/common.py`), in `board.dfy`, `lines.dfy` and `render.dfy`:
  - the empty 6 × 7 board;
  - dropping a piece into a column (`apply_player_action`);
  - the four-in-a-row detector (`connected_four`) and the end-state classifier (`check_end_state`);
  - the text rendering (`pretty_print_board`);
  - the open-column query `check_open_columns` and the board-full test `check_board_full`.
- **The minimax agent** (`agents/agent_minimax/agent_minimax.py`), in `heuristic.dfy` and `minimax.dfy`:
  - the integer positional heuristic: centre column, row parity, and a score for each of the 69 lines of four cells;
  - the depth-limited fail-soft alpha-beta search `minimax`;
  - `generate_move_minimax`.
- **The Monte Carlo tree search agent** (`agents/agent_mcts/agent_mcts.py`), in `mcts.dfy`:
  - the search tree of `Node`s;
  - `expansion`, `selection`, `simulation`, `backpropagation`, `best_child` and `monte_carlo_tree_search`;
  - `result` and `generate_move`.

`wrappers.dfy` holds the `Option` type.

Modelling choices:

- **Boards are values.** `Board` is a 6 × 7 `seq<seq<Piece>>`, and row 0 is the bottom row.
  - Every search in the source works on its own copy (`deepcopy`, `np.copy`), so the pure operations and the searches take boards as values.
  - `Drop` is the board that `apply_player_action` produces.
  - The in-place loop of `apply_player_action` itself is also kept, as the method `Board.ApplyPlayerAction` on an `array2`. It is proved to produce `Drop`.
- **Scores with infinities.** The running scores and the alpha and beta of `minimax`, which start at `±math.inf`, are the datatype `ExtInt = NegInf | Fin(int) | PosInf`.
- **The MCTS tree lives in an arena.** The class `Tree` holds the nodes in a sequence that its methods reassign. Node 0 is the root. `parent` and `children` are indices into the sequence, and a child is always stored after its parent.
  - `expansion` and `backpropagation` change the tree as they do in the source.
  - `value` is a `real`.
- **The nondeterministic parts are parameters of the class `Mcts`.**
  - The draws of `random.choice` come from an oracle `rng`. The t-th draw is `rng(t)`, reduced modulo the length of the list.
  - The UCB1 score of a visited node is an uninterpreted function `ucb1(value, visits, parentVisits)`.
- **An iteration count replaces the wall clock.** `monte_carlo_tree_search` runs for `iterations` rounds instead of 5 seconds.
- **The module globals become fields.** `PLAYER` is the `player` field of `Mcts`, and `OPPONENT` is `Opponent(player)`.
- **Players.** The player passed to any agent is `PLAYER1` or `PLAYER2` (the type `Player`).

### Where the model departs from the code as written

The code as shown does not run as documented in several places. The model
follows each function's documentation and the tests that pin it.

- **`apply_player_action`** (`agents/common.py:95-96`). The loop runs over the row arrays and then indexes the board with them, where the documentation says row indices.
  - The model scans the row indices 0..5 and fills the lowest empty cell.
  - It ignores `copy`, as the source does.
  - The source's minimax unpacks the result as an `(original, copy)` pair (`agents/agent_minimax/agent_minimax.py:185, 202`). The model reads this as "the child board is a copy with the move applied; the board searched stays unchanged", which is what value boards give.
- **`connected_four`**. The anchor cell is never tested, and the vertical test reads row 6. The model uses the corrected detector. The as-written scan is also modelled; see "## Findings".
- **`check_end_state`**. The draw branch is missing. The model returns `IS_DRAW` when there is no win and no column is open; see "## Findings".
  - The MCTS result score 0.2 depends on this branch.
  - The minimax terminal test uses it too: that test is `check_end_state` for the agent only. So the model, like the source, keeps searching a position where only the opponent has four in a row, unless the board is full.
- **`check_board_full` and `check_open_columns`**. The MCTS agent imports both from `agents/common.py`, which does not define them. They are taken as in the minimax agent, and "full" means "no open column".
- **`unexpanded_moves`** is a numpy array in the source, on which `.remove` does not exist. It is modelled as the list the code treats it as.
- **`selection`** is modelled as written.
  - Every new child's board is the root board plus one piece of the agent (`self.player`), whatever the depth of the node expanded.
  - Every node is owned by the agent.
- **`best_child`** returns `None` when no child qualifies, on which `monte_carlo_tree_search` would raise an `AttributeError`. The model returns no move (`None`) there.
- **`test_heuristic`** (`tests/test_agent_minimax.py:120-131`) expects 45 for three pieces in the bottom row. The code adds the parity bonus to that, and the model follows the code.

## Model

| member | source | states |
|---|---|---|
| Board.Opponent | agents/agent_minimax/agent_minimax.py:158-161 | the opponent of a player is the other player: PLAYER2 for PLAYER1 and PLAYER1 for PLAYER2 |
| Board.Count | agents/agent_minimax/agent_minimax.py:40 | `list.count` never exceeds the length of the list |
| Board.CountIsCardinality | agents/agent_minimax/agent_minimax.py:40 | the count of x is the number of positions holding x |
| Board.CountIsMultiplicity | agents/agent_minimax/agent_minimax.py:85-93 | the count of x is its multiplicity in the multiset of the list |
| Board.CountsPartition | agents/agent_minimax/agent_minimax.py:85-93 | every cell holds NO_PLAYER, PLAYER1 or PLAYER2, so the three counts add up to the length |
| Board.InitializeGameState | agents/common.py:28-32 | every cell of the 6 × 7 board is NO_PLAYER |
| Board.FirstEmptyBelowSpec | agents/common.py:95-98 | the bottom-up scan of a column stops at the first empty cell, and every cell below it is occupied |
| Board.LowestOpenRow | agents/common.py:89 | the lowest open row of a column: empty if on the board, with every cell below it occupied |
| Board.LowestOpenRowUnique | agents/common.py:89 | any row with those two properties is the lowest open row |
| Board.Drop | agents/common.py:85-100 | the board apply_player_action returns, as a value; the cells it changes are stated by DropCells and the in-place loop is proved against it by ApplyPlayerAction |
| Board.DropCells | agents/common.py:89-90 | apply_player_action puts `player` in the lowest open row of `action`, leaves every other cell unchanged, and leaves a full column's board as it is |
| Board.Contents | agents/common.py:85-87 | the board a 6 × 7 array holds, cell by cell |
| Board.ApplyPlayerAction | agents/common.py:85-100 | the in-place loop leaves the array holding exactly the board Drop describes |
| Board.ColumnIsStack | agents/common.py:89 | on a board without floating pieces, a cell is occupied exactly when it lies below its column's lowest open row |
| Board.DropKeepsGravity | agents/common.py:89-98 | dropping into an open column keeps the board free of floating pieces, grows that column's stack by one, and changes no other column's stack |
| Board.OpenInMembers | agents/agent_minimax/agent_minimax.py:29 | argwhere lists exactly the indices whose cell is NO_PLAYER |
| Board.OpenInAscending | agents/agent_minimax/agent_minimax.py:29 | argwhere lists those indices in strictly ascending order |
| Board.OpenInNone | agents/agent_minimax/agent_minimax.py:29 | argwhere lists nothing exactly when every cell is occupied |
| Board.OpenColumns | agents/agent_minimax/agent_minimax.py:23-29 | check_open_columns, as argwhere over the top row; its members and their order are stated by OpenColumnsMembers and OpenColumnsAscending |
| Board.OpenColumnsMembers | agents/agent_minimax/agent_minimax.py:29 | check_open_columns holds exactly the columns whose top cell (row 5) is NO_PLAYER |
| Board.OpenColumnsAscending | agents/agent_minimax/agent_minimax.py:29 | check_open_columns is strictly ascending |
| Board.IsFull | agents/agent_mcts/agent_mcts.py:233 | check_board_full, as "no column is open"; FullIffTopRowOccupied states it cell by cell |
| Board.FullIffTopRowOccupied | agents/agent_mcts/agent_mcts.py:233 | check_board_full holds exactly when every cell of the top row is occupied |
| Board.OpenIffNotFull | agents/agent_minimax/agent_minimax.py:29 | on a board without floating pieces, a column is open exactly when its lowest open row is on the board |
| Board.DropFillsOneCell | agents/common.py:89-98 | a drop into an open column fills exactly one empty cell |
| Lines.WindowCells | agents/agent_minimax/agent_minimax.py:123 | the list of the four pieces of a line, in cell order |
| Lines.HorizontalWindows | agents/agent_minimax/agent_minimax.py:119-125 | the horizontal lines heuristic scores: 24 of them, all on the board |
| Lines.VerticalWindows | agents/agent_minimax/agent_minimax.py:128-132 | the vertical lines: 21, all on the board |
| Lines.RisingWindows | agents/agent_minimax/agent_minimax.py:135-138 | the rising diagonals: 12, all on the board |
| Lines.FallingWindows | agents/agent_minimax/agent_minimax.py:141-144 | the falling diagonals: 12, all on the board |
| Lines.AllWindows | agents/agent_minimax/agent_minimax.py:119-144 | heuristic scores 69 lines, all on the board |
| Lines.AllWindowsExactly | agents/agent_minimax/agent_minimax.py:119-144 | a line of four cells is among the 69 exactly when it lies on the board |
| Lines.ScanFinds | agents/common.py:116-133 | the row-by-row scan with early return finds a line exactly when some anchor it has yet to visit passes a test |
| Lines.ScanIsConnectedFour | agents/common.py:116-133 | the nested loops of connected_four, scanned from the first anchor, compute connected_four |
| Lines.FilledWindowAnchor | agents/common.py:119-128 | a line of four `p` makes the tests at its anchor succeed |
| Lines.AnchorFilledWindow | agents/common.py:119-128 | a successful test at an anchor shows a line of four `p` |
| Lines.ConnectedFour | agents/common.py:102-133 | connected_four as documented: some anchor passes one of the four tests, the anchor cell included; ScanIsConnectedFour ties it to the scan and ConnectedFourIffFilled to lines of four cells |
| Lines.ConnectedFourIffFilled | agents/common.py:105-107 | connected_four holds exactly when some horizontal, vertical or diagonal line of four cells holds `p` in all four |
| Lines.ConnectedFourIffFilledWindow | agents/common.py:105-107 | the same, over the 69 lines that heuristic scores |
| Lines.EmptyBoardHasNoFour | agents/common.py:105-107 | the empty board has no line for either player |
| Lines.NoPiecesNoFour | agents/common.py:105-107 | a player without pieces on the board has no line |
| Lines.BottomRowOfFourCells | agents/common.py:89-98 | four PLAYER1 pieces dropped into columns 0..3 of the empty board fill row 0, columns 0..3, and nothing else |
| Lines.BottomRowOfFourWins | tests/test_agent_mcts.py:132-140 | that board is a line for PLAYER1 and none for PLAYER2 |
| Lines.AsWrittenSkipsAnchor | agents/common.py:119 | as written, three PLAYER1 pieces in columns 1..3 of the bottom row make connected_four true, though no line holds four |
| Lines.TopOfColumnZeroScan | agents/common.py:122 | as written, the scan of a board with PLAYER1 in rows 4 and 5 of column 0 reaches the vertical test at row 3, column 0, from every earlier anchor |
| Lines.ConnectedFourAsWritten | agents/common.py:116-133 | the nested loops of connected_four exactly as written, returning True, False or raising IndexError; the two findings on it are AsWrittenSkipsAnchor and AsWrittenIndexesRowSix |
| Lines.AsWrittenIndexesRowSix | agents/common.py:122 | as written, that board makes connected_four index row 6 and raise IndexError |
| Lines.CheckEndState | agents/common.py:137-149 | check_end_state is IS_WIN exactly when the player has a line; IS_DRAW exactly when there is no such line and no open column; STILL_PLAYING exactly when there is no such line and some column is open |
| Lines.EmptyBoardStillPlaying | agents/common.py:137-149 | the empty board is still being played, for either player |
| Lines.FullBoardWithoutLineHasNoFour | agents/common.py:105-107 | the full board with colours alternating in pairs of rows has no line for anyone |
| Lines.CheckEndStateAsWritten | agents/common.py:137-149 | check_end_state as written, with no draw branch; AsWrittenNeverDraws shows where it differs from CheckEndState |
| Lines.AsWrittenNeverDraws | agents/common.py:145-149 | as written, check_end_state answers STILL_PLAYING on that full board, where the corrected classifier answers IS_DRAW |
| Render.CellText | agents/common.py:55-57 | each piece renders as two characters |
| Render.Cells | agents/common.py:55-58 | the cells of a row render as the concatenation of their two-character texts, position by position |
| Render.RowText | agents/common.py:58 | a rendered row is the cells between two vertical-bar characters, 16 characters for a board row |
| Render.RowTextInjective | agents/common.py:55-58 | two rows of the same length with the same rendering are equal |
| Render.PrettyPrintBoard | agents/common.py:49-61 | 9 lines: the border at lines 0 and 7, the column footer at line 8, board row 6 − i at line i, every line 16 characters |
| Render.RenderingDeterminesBoard | agents/common.py:49-61 | two boards whose rows render alike are equal |
| Heuristic.ColumnCells | agents/agent_minimax/agent_minimax.py:39 | `board[:, c]` as a list: the cells of column c from the bottom up |
| Heuristic.CenterColumnScore | agents/agent_minimax/agent_minimax.py:38-42 | three points for each row whose centre-column cell holds the player |
| Heuristic.EvenOddRowScores | agents/agent_minimax/agent_minimax.py:44-67 | the loop's score is two points per player piece in rows 0, 2, 4 for PLAYER1 and in rows 1, 3, 5 otherwise |
| Heuristic.ParityScore | agents/agent_minimax/agent_minimax.py:44-67 | the value even_odd_row_scores computes, two points per piece in the player's rows; EvenOddRowScores is proved to return it |
| Heuristic.AdjacentScorePermutation | agents/agent_minimax/agent_minimax.py:85-94 | adjacent_score depends only on the multiset of the window |
| Heuristic.AdjacentScoreMeaning | agents/agent_minimax/agent_minimax.py:85-94 | a window scores between −60 and 10000; 10000 exactly for four own pieces; negative exactly for three opponent pieces and one empty, and then −60 |
| Heuristic.EmptyWindowScoresZero | agents/agent_minimax/agent_minimax.py:85-94 | an empty window scores 0 |
| Heuristic.AdjacentScore | agents/agent_minimax/agent_minimax.py:69-96 | adjacent_score from the counts of own, empty and opponent pieces; its range and cases are stated by AdjacentScoreMeaning and AdjacentScorePermutation |
| Heuristic.WindowsScoreAppend | agents/agent_minimax/agent_minimax.py:119-144 | the windowed scores of consecutive loops add up |
| Heuristic.AddHorizontal | agents/agent_minimax/agent_minimax.py:119-125 | the horizontal loop adds the sum of adjacent_score over the 24 horizontal lines |
| Heuristic.AddVertical | agents/agent_minimax/agent_minimax.py:128-132 | the vertical loop adds the sum over the 21 vertical lines |
| Heuristic.AddRising | agents/agent_minimax/agent_minimax.py:135-138 | the rising-diagonal loop adds the sum over the 12 rising diagonals |
| Heuristic.AddFalling | agents/agent_minimax/agent_minimax.py:141-144 | the falling-diagonal loop adds the sum over the 12 falling diagonals |
| Heuristic.Heuristic | agents/agent_minimax/agent_minimax.py:98-146 | heuristic is the centre score plus the parity score plus adjacent_score summed over all 69 lines |
| Heuristic.HeuristicValue | agents/agent_minimax/agent_minimax.py:98-146 | the value heuristic computes: centre score plus parity score plus adjacent_score over all 69 lines; the method Heuristic is proved to return it |
| Heuristic.WindowsScoreZero | agents/agent_minimax/agent_minimax.py:119-144 | lines that each score 0 sum to 0 |
| Heuristic.EmptyBoardScoresZero | agents/agent_minimax/agent_minimax.py:107-146 | the heuristic of the empty board is 0 for either player |
| Minimax.Max | agents/agent_minimax/agent_minimax.py:193 | max(a, b) bounds both arguments and is one of them |
| Minimax.Min | agents/agent_minimax/agent_minimax.py:207 | min(a, b) is below both arguments and is one of them |
| Minimax.MaxOfIsMaximum | agents/agent_minimax/agent_minimax.py:189-191 | the best child value of the agent bounds every child value and is one of them |
| Minimax.MinOfIsMinimum | agents/agent_minimax/agent_minimax.py:204-206 | the best child value of the opponent is below every child value and is one of them |
| Minimax.OfMonotone | agents/agent_minimax/agent_minimax.py:183-195 | looking at more children never lowers the maximum or raises the minimum |
| Minimax.Value | agents/agent_minimax/agent_minimax.py:148-210 | the unpruned minimax value is always a finite integer |
| Minimax.ChildValues | agents/agent_minimax/agent_minimax.py:183-187 | one finite child value per open column |
| Minimax.TerminalScore | agents/agent_minimax/agent_minimax.py:172-178 | the score of a terminal position: 100000 for the agent's line, else -100000 for the opponent's, else 0; Minimax returns it on a terminal board |
| Minimax.ValueIsBestChild | agents/agent_minimax/agent_minimax.py:180-210 | away from depth 0 and terminal positions, the value is the maximum (agent to move) or minimum (opponent to move) of the child values, and some open column's child has it |
| Minimax.LayerValue | agents/agent_minimax/agent_minimax.py:180-210 | a non-terminal position has an open column, and its value is the maximum or minimum of its child values |
| Minimax.ChildValuesAt | agents/agent_minimax/agent_minimax.py:185-187 | the value of the i-th child is the value of the board with the mover's piece dropped into the i-th open column, one ply less deep, with the other side to move |
| Minimax.MaxStep | agents/agent_minimax/agent_minimax.py:189-193 | one pass of the maximizing loop keeps the score a fail-soft answer for the maximum so far |
| Minimax.MinStep | agents/agent_minimax/agent_minimax.py:204-207 | one pass of the minimizing loop keeps the score a fail-soft answer for the minimum so far |
| Minimax.MaxCutoff | agents/agent_minimax/agent_minimax.py:194-195 | breaking once alpha >= beta leaves a fail-soft answer for the maximum over all children |
| Minimax.MinCutoff | agents/agent_minimax/agent_minimax.py:208-209 | breaking once alpha >= beta leaves a fail-soft answer for the minimum over all children |
| Minimax.MaxLoopStep | agents/agent_minimax/agent_minimax.py:183-195 | the maximizing loop invariant survives one pass: score, column and alpha |
| Minimax.MinLoopStep | agents/agent_minimax/agent_minimax.py:201-209 | the minimizing loop invariant survives one pass: score, column and beta |
| Minimax.MaxLoopResult | agents/agent_minimax/agent_minimax.py:183-196 | on exit, the maximizing score is fail-soft for the maximum child value; with the full window it is that maximum, at the lowest column that has it |
| Minimax.MinLoopResult | agents/agent_minimax/agent_minimax.py:201-210 | on exit, the minimizing score is fail-soft for the minimum child value; with the full window it is that minimum, at the lowest column that has it |
| Minimax.Minimax | agents/agent_minimax/agent_minimax.py:148-210 | depth 0: no column and the heuristic. Terminal: no column and ±100000 or 0. Otherwise: an open column. The score is a fail-soft answer for the plain minimax value; with the full window it equals that value, and the column is the lowest open column whose child has it |
| Minimax.MinimaxScore | agents/agent_minimax/agent_minimax.py:187 | `minimax(...)[1]` is a fail-soft answer for the plain minimax value |
| Minimax.SearchChild | agents/agent_minimax/agent_minimax.py:185-187 | searching one child on a copy of the board gives a fail-soft answer for that child's value |
| Minimax.MaximizingLayer | agents/agent_minimax/agent_minimax.py:180-196 | the maximizing branch returns an open column and a fail-soft answer for the maximum child value; with the full window it returns the lowest-index best column |
| Minimax.MinimizingLayer | agents/agent_minimax/agent_minimax.py:198-210 | the minimizing branch returns an open column and a fail-soft answer for the minimum child value; with the full window it returns the lowest-index best column |
| Minimax.FullWindowColumnIsBest | agents/agent_minimax/agent_minimax.py:14-19 | the first column attaining the full-window value is a best move: an open column whose child has the largest value, and the lowest such column |
| Minimax.GenerateMoveMinimax | agents/agent_minimax/agent_minimax.py:10-21 | the saved state comes back unchanged; on a terminal board there is no move; otherwise the move is the lowest best column of a depth-4 search |
| Mcts.Result | agents/agent_mcts/agent_mcts.py:177-192 | −1 exactly when the opponent has a line; 1 exactly when only the player has one; 0.2 exactly on a full board without lines; 0 exactly when no one has a line and a column is open |
| Mcts.IndexOf | agents/agent_mcts/agent_mcts.py:74 | `list.remove` removes the first occurrence of the move |
| Mcts.Remove | agents/agent_mcts/agent_mcts.py:74 | removing a move takes exactly one copy of it out of the multiset of unexpanded moves |
| Mcts.NewNode | agents/agent_mcts/agent_mcts.py:54-63 | a new node keeps the board, parent, column and player it is given, is the root exactly when it has no parent, starts with value 0, no visits and no children, and has every open column of its board still to expand |
| Mcts.NewNodeMovesOnce | agents/agent_mcts/agent_mcts.py:63 | a new node lists each column once among its unexpanded moves when the column's top cell is empty, and never otherwise |
| Mcts.NewNodePartitioned | agents/agent_mcts/agent_mcts.py:60-63 | a new node satisfies the tree's partition invariant by itself: no children's moves, and its unexpanded moves are its open columns |
| Mcts.Expanded | agents/agent_mcts/agent_mcts.py:73-76 | expansion adds exactly one node to the tree |
| Mcts.ExpandedLinked | agents/agent_mcts/agent_mcts.py:73-76 | after expansion, parents still come before their children and every child points back at its parent |
| Mcts.ExpandedChildMoves | agents/agent_mcts/agent_mcts.py:73-76 | expansion appends exactly `move` to the moves of the node's children |
| Mcts.ExpandedPartitionedAt | agents/agent_mcts/agent_mcts.py:63-76 | after expansion, every node's unexpanded moves and its children's moves together are its open columns, each once |
| Mcts.ExpandedWellFormed | agents/agent_mcts/agent_mcts.py:63-76 | expansion keeps the whole tree well formed |
| Mcts.SameShapeWellFormed | agents/agent_mcts/agent_mcts.py:104-105 | updating statistics only keeps the tree well formed |
| Mcts.Path | agents/agent_mcts/agent_mcts.py:101-107 | the nodes backpropagation updates are non-root nodes at or above the leaf |
| Mcts.PathFrame | agents/agent_mcts/agent_mcts.py:104-107 | updating statistics does not change the parent chain |
| Mcts.ChildMoveIsOpen | agents/agent_mcts/agent_mcts.py:63-76 | every child's column was open on its parent's board |
| Mcts.LeafWithoutMoves | agents/agent_mcts/agent_mcts.py:202-207 | a node with no children and no unexpanded moves has a full board |
| Mcts.ChosenUnique | agents/agent_mcts/agent_mcts.py:121-139 | at most one child is the one best_child returns |
| Mcts.Scan | agents/agent_mcts/agent_mcts.py:121-135 | the scan's win, urgent block and best child are children already scanned, and without a win no scanned child wins |
| Mcts.ScanUrgent | agents/agent_mcts/agent_mcts.py:127-129 | without a win, the urgent block is the last blocking child so far, if any |
| Mcts.ScanBest | agents/agent_mcts/agent_mcts.py:130-135 | without a win, the best child is the first child of highest ratio among the plain children so far, with its ratio |
| Mcts.ScanWin | agents/agent_mcts/agent_mcts.py:124-126 | the scan stops at the first winning child |
| Mcts.ScanChooses | agents/agent_mcts/agent_mcts.py:121-139 | after the whole scan, the preferred child (win, else block, else best ratio) is the chosen one; if none is preferred there are no children |
| Mcts.SearchRound | agents/agent_mcts/agent_mcts.py:166-172 | a round keeps every non-root node visited, leaves the root's board and visits alone, and leaves the root with children unless its board is full |
| Mcts.Tree.constructor | agents/agent_mcts/agent_mcts.py:54-63 | a tree of one root node: value 0, no visits, no children, every open column unexpanded |
| Mcts.Tree.Expansion | agents/agent_mcts/agent_mcts.py:65-76 | the tree after expansion is Expanded of the old tree, and the new child has parent i and column_move `move`; the tree stays well formed |
| Mcts.LastMoverStep | agents/agent_mcts/agent_mcts.py:236 | one more alternation after the opponent leaves the same last mover |
| Mcts.Mcts.constructor | agents/agent_mcts/agent_mcts.py:89-91 | the search of one player, with its random draws and UCB1 score |
| Mcts.Mcts.UcbValue | agents/agent_mcts/agent_mcts.py:83-86 | ucb_value is +inf exactly for a node not yet visited |
| Mcts.Mcts.FirstMaxUcb | agents/agent_mcts/agent_mcts.py:157 | `max(children, key=ucb_value)`: a child of highest score, and the first of them |
| Mcts.Mcts.HighestUcb | agents/agent_mcts/agent_mcts.py:147-157 | None exactly when there are no children; otherwise the first child of highest score |
| Mcts.Mcts.HighestUcbPrefersUnvisited | agents/agent_mcts/agent_mcts.py:147-157 | with an unvisited child, highest_ucb returns the first unvisited child |
| Mcts.Mcts.Descend | agents/agent_mcts/agent_mcts.py:202-204 | the descent ends at a node with no children or with unexpanded moves |
| Mcts.Mcts.SelectRandomChild | agents/agent_mcts/agent_mcts.py:216-222 | the chosen move is one of the moves offered |
| Mcts.Mcts.Selection | agents/agent_mcts/agent_mcts.py:194-214 | descend by highest_ucb; a node with unexpanded moves is expanded by a drawn move with the root board plus the agent's piece, and the new child is returned; otherwise the tree is unchanged and the node reached is returned |
| Mcts.Mcts.PlayoutLength | agents/agent_mcts/agent_mcts.py:233-242 | a playout plays at most one move per empty cell |
| Mcts.Mcts.Playout | agents/agent_mcts/agent_mcts.py:224-244 | the simulation loop as a value: the final board and the number of moves; its bound and its end are stated by PlayoutLength and PlayoutEnds, and Simulation is proved to follow it |
| Mcts.Mcts.PlayoutStep | agents/agent_mcts/agent_mcts.py:233-242 | one playout move, by the opponent of the last mover into a drawn open column, empties one cell fewer and stops at a line |
| Mcts.Mcts.PlayoutEnds | agents/agent_mcts/agent_mcts.py:233-242 | a playout ends on a full board or with a line for the player who moved last |
| Mcts.Mcts.Simulation | agents/agent_mcts/agent_mcts.py:224-244 | the loop plays out the playout from the node's board, changes nothing in the tree, uses at most 42 draws, and scores the end with result for the node's player |
| Mcts.Mcts.Backpropagation | agents/agent_mcts/agent_mcts.py:93-107 | every non-root node from the leaf up gains the result in value and one visit; every other node, the root included, is unchanged |
| Mcts.Mcts.BestChildUnique | agents/agent_mcts/agent_mcts.py:109-139 | best_child's answer is determined by the tree |
| Mcts.Mcts.VisitedReadVisited | agents/agent_mcts/agent_mcts.py:132 | in a tree whose non-root nodes are all visited, best_child divides only by non-zero visit counts |
| Mcts.Mcts.BestChild | agents/agent_mcts/agent_mcts.py:109-139 | None exactly when the node has no children; otherwise the first winning child, else the last blocking child, else the first child of highest value/visits ratio |
| Mcts.Mcts.Iteration | agents/agent_mcts/agent_mcts.py:166-172 | one round of selection, simulation and backpropagation keeps the tree well formed and its non-root nodes visited, leaves the root's board and visits alone, and leaves the root with children unless its board is full |
| Mcts.Mcts.MonteCarloTreeSearch | agents/agent_mcts/agent_mcts.py:159-175 | the root gains exactly one visit; the move is the column of best_child on the final tree and is open on the root board; after at least one round there is a move exactly when a column is open |
| Mcts.GenerateMove | agents/agent_mcts/agent_mcts.py:17-50 | column 3 while the bottom row is empty; otherwise an open column, present exactly when some round was run and a column is open; the saved state comes back unchanged |

## Left out

- The wall-clock budget (`MCTS.check_time`, `start_time` and `while self.check_time(5)`). An iteration count stands in for it; real time is not modelled.
- The UCB1 formula for visited nodes (float `sqrt` and `log`, `np.seterr`). It is the parameter `ucb1`. Only its +inf for unvisited nodes is interpreted.
- `random.choice`. It is the draw oracle `rng`; no claim is made about the distribution of the draws.
- `string_to_board`. It does not produce a board: the results of `np.delete` are discarded and it iterates over characters. It has no round trip to prove.
- The `last_action` branch of `connected_four`. It only assigns an unused local.
- The module-level demo calls of `agents/common.py`, `main.py`, the performance evaluation scripts and the random agent. They are input/output, timing or trivial.
- `np.seterr`: the warning setting of numpy has no counterpart.
- Object identity: references between `Node` objects are indices into the arena, so the tree is not modelled as an aliased heap.
- The players `NO_PLAYER` and any other `BoardPiece` value are excluded as the agents' player; the board functions still accept any piece.
- The integer width of `np.int8` and `PlayerAction`. Scores and columns are unbounded integers. The sums the heuristic forms stay well within Python's integers, and columns are 0..6.
- Mcts.Mcts.Iteration: states the invariants a round keeps and the root's fields, not the whole new tree; each step's full effect is stated by the contracts of Selection, Simulation and Backpropagation.
- Mcts.Mcts.MonteCarloTreeSearch: states the chosen move through best_child of the final tree, not as a function of the draws.
- Mcts.GenerateMove: states what the move is (its legality and presence), not which open column the search picks.
- Minimax.Value: its own contract states only that the value is finite; what the value is, is stated by ValueIsBestChild and LayerValue.

## Findings

| source | as written | input that shows it | evidently intended | confidence | as-written member | corrected member |
|---|---|---|---|---|---|---|
| agents/common.py:119-128 | the four tests compare the three cells after the anchor but never the anchor `board[row, column]` itself | PLAYER1 in columns 1, 2, 3 of row 0 only: the horizontal test at anchor (0, 0) succeeds | a line is four equal cells, anchor included (documentation at agents/common.py:105-107) | not executed | Lines.AsWrittenSkipsAnchor | Lines.ConnectedFourIffFilled |
| agents/common.py:122 | the vertical test admits `row <= 3`, so at row 3 it reads `board[6, column]`, outside the 6-row board | PLAYER1 in rows 4 and 5 of column 0 only: the scan reaches (3, 0), both cells above match, and numpy raises IndexError | the vertical test stops at row 2, the last row with three rows above it | not executed | Lines.AsWrittenIndexesRowSix | Lines.ConnectedFourIffFilled |
| agents/common.py:145-149 | there is no draw branch (a TODO), so a board without a line for the player is always STILL_PLAYING | the full board with colours alternating along each row and pairs of rows shifted by one column: no line for anyone, yet STILL_PLAYING | IS_DRAW when there is no line and no column is open (documentation at agents/common.py:141-143) | not executed | Lines.AsWrittenNeverDraws | Lines.CheckEndState |
