# Tic-tac-toe player: rules engine and minimax search

This project models the tic-tac-toe player in `tictactoe.py`. It has two parts:

- The **rules engine**:
  - `initial_state` gives the empty 3×3 board.
  - `player` names the side to move, working it out from the X and O counts.
  - `actions` lists the empty cells.
  - `result` copies the board and puts the mover's mark in one cell.
  - `winner` scans the eight lines.
  - `terminal` and `utility` end and score the game.
- The **search**:
  - `maxvalue` and `minvalue` are mutually recursive and compute the game value over the whole game tree.
  - `minimax` turns the children's values into the move it returns.

The model has three modules:

- `Rules` (`rules.dfy`):
  - The board is a `seq<seq<Cell>>` whose type forces it to be 3×3.
  - A move is `Action(row, col)`, with both coordinates in 0..2.
  - `Player`, `Actions` and `Terminal` keep the source's loops as methods. Each is proved equal to a specification function: `Turn`, `EmptyCells` and `IsTerminal`.
  - `InitialState`, `Result`, `Winner` and `Utility` are functions.
- `Search` (`search.dfy`):
  - `MaxScore`/`MinScore` are the mutually recursive game values. They terminate on the number of empty cells.
  - `MaxValue`/`MinValue` are the source's loops with the running `value` and the sentinel -2 or 2. `MinimaxRule` states the move the source's `minimax` picks, as a function of the order it visits the moves.
  - The method `Minimax` keeps the source's two loops, with its list of stored moves and values (named `fronteir` in the source, `frontier` here). It is proved to return `MinimaxRule` of the shuffled moves.
- `Scenarios` (`scenarios.dfy`) has worked boards whose values are proved.

Two behaviours of the code are modelled as written:

- **A line of three empty cells counts as "equal".** `winner` then reports no one, even when a later row or column is complete. `Rules.MissedRowWin` reaches such a board by legal play: X holds the whole middle row and the game goes on.
- **`minimax` is not an argmax.**
  - The guard `utility(board) >= -1` always holds, so the first move that ends the game is returned at once.
  - Otherwise the first move that is at least a draw for the mover is returned, even when another move wins. `Scenarios.MinimaxSettlesForDraw` shows such a board.
  - When no move ends the game and every move loses, no move is returned. When every move loses but ends the game, the first one is returned: `Scenarios.MinimaxPlaysLosingMove` shows such a board, reached by legal play, where an all-empty top row hides two complete rows.

The docstring at `tictactoe.py:105` says the chosen move is value-optimal. The code does not do that, and the model follows the code. For contrast, `Search.OptimalMove` is a separate argmax, proved to attain the game value.

`Scenarios.MinimaxTakesImmediateWin` shows minimax taking X's immediate win on `[[X,X,E],[O,O,E],[E,E,E]]`.

## Model

| member | source | states |
|---|---|---|
| Rules.InitialState | tictactoe.py:12-18 | every cell is empty: 9 empty cells, no X, no O |
| Rules.InitialTurn | tictactoe.py:33-36 | X moves first on the starting board |
| Rules.Player | tictactoe.py:21-36 | the counting loops return `Turn(b)`, O exactly when X's count exceeds O's, else X; never Empty |
| Rules.EmptyCells | tictactoe.py:39-48 | the listed moves are exactly the empty cells, in strictly increasing row-major order (so each appears once); the list has length 9 − #X − #O, and is empty iff the board is full |
| Rules.EmptyCellsUpToSpec | tictactoe.py:44-47 | after the first n cells the appended list holds exactly the empty cells among them, in row-major order, and its length is their empty count |
| Rules.EmptyCellsDistinct | tictactoe.py:39-48 | no cell is listed twice |
| Rules.Actions | tictactoe.py:39-48 | the nested loop with appends returns `EmptyCells(b)` |
| Rules.Result | tictactoe.py:51-58 | the new board equals the old one except at the action, which holds the mover's mark; on an empty cell the empty count drops by exactly one |
| Rules.CountAfterPlace | tictactoe.py:57 | writing one cell changes the count of a mark by the change at that cell alone |
| Rules.TurnAlternates | tictactoe.py:21-58 | if X's lead over O is 0 or 1 and the cell is empty, the result keeps the lead in {0, 1} and the side to move changes |
| Rules.LegalGameKeepsBalance | tictactoe.py:51-58 | along any legal sequence of moves, X's lead stays in {0, 1} and the empty count drops by the number of moves |
| Rules.Winner | tictactoe.py:61-74 | the if-chain of chained `==` tests in source order, each returning the line's first cell; falling off the end is `Empty`; what it reports is stated by the four lemmas below |
| Rules.WinnerIsFirstUniformLine | tictactoe.py:61-74 | winner reports the shared value of the first line, in the order rows, columns, main diagonal, anti-diagonal, whose three cells are equal (Empty if they are all empty) |
| Rules.WinnerWithoutUniformLine | tictactoe.py:61-74 | with no line of three equal cells, winner reports no one |
| Rules.WinnerHasLine | tictactoe.py:61-74 | a reported X or O winner fills a complete line |
| Rules.WinnerWithoutEmptyRowOrColumn | tictactoe.py:65-74 | when no row or column is entirely empty, some player is reported iff a player holds a complete line |
| Rules.MissedRowWin | tictactoe.py:65-67 | five legal moves from the start give a board where X holds the middle row, yet winner reports no one, the game is not over and the score is 0 |
| Rules.Terminal | tictactoe.py:77-87 | the scan returns true iff winner reports X or O, or no empty cell remains |
| Rules.Utility | tictactoe.py:90-100 | the score is in {-1, 0, 1}: 1 iff X is reported, -1 iff O is, 0 iff no one is |
| Rules.FullBoardWithoutLineIsDraw | tictactoe.py:77-100 | a full board without a complete line is over, with no winner and score 0 |
| Rules.LegalStep | tictactoe.py:51-58 | a legal move followed by a legal game is a legal game, and playing it goes through the move's result |
| Search.MaxScore | tictactoe.py:131-143 | X's game value is always in {-1, 0, 1}: the sentinel -2 is never the answer |
| Search.MinScore | tictactoe.py:146-158 | O's game value is always in {-1, 0, 1}: the sentinel 2 is never the answer |
| Search.MaxOverMoves | tictactoe.py:138-142 | the running maximum from the sentinel -2: -2 for no moves, otherwise in {-1, 0, 1} |
| Search.MinOverMoves | tictactoe.py:153-157 | the running minimum from the sentinel 2: 2 for no moves, otherwise in {-1, 0, 1} |
| Search.MaxOverMovesIsMaximum | tictactoe.py:138-142 | the running maximum over a list of moves bounds every child's value and is attained by one of them |
| Search.MinOverMovesIsMinimum | tictactoe.py:153-157 | the running minimum over a list of moves is below every child's value and is attained by one of them |
| Search.MaxOverMovesOrderFree | tictactoe.py:137-142 | the maximum depends only on which moves are listed, not their order |
| Search.MinOverMovesOrderFree | tictactoe.py:152-157 | the minimum depends only on which moves are listed, not their order |
| Search.MaxScoreIsBestReply | tictactoe.py:131-143 | on a finished board X's value is the utility; otherwise there is a move, no move beats X's value and some move attains it |
| Search.MinScoreIsBestReply | tictactoe.py:146-158 | on a finished board O's value is the utility; otherwise there is a move, no move goes below O's value and some move attains it |
| Search.ShuffledMoves | tictactoe.py:107-108 | a shuffle of the empty cells lists the same moves, all of them empty cells |
| Search.MaxValue | tictactoe.py:131-143 | the loop over a shuffled move list returns `MaxScore(b)`, whatever the shuffle's order |
| Search.MinValue | tictactoe.py:146-158 | the loop over a shuffled move list returns `MinScore(b)`, whatever the shuffle's order |
| Search.MinimaxRule | tictactoe.py:107-128 | the move chosen is one of the moves visited |
| Search.Minimax | tictactoe.py:103-128 | the two loops return `MinimaxRule` of the shuffled empty cells: the first move ending the game, else the first move at least a draw for the mover, else none |
| Search.PickFromFrontier | tictactoe.py:122-128 | the scan of the stored (move, value) pairs against 0 returns the first move that is at least a draw for the mover, or none |
| Search.FrontierAt | tictactoe.py:118-121 | entry k of the stored list pairs move k with the child's value for the mover |
| Search.FinishRule | tictactoe.py:113-116 | if no earlier move ends the game and move i does, that move is the choice |
| Search.NoFinishRule | tictactoe.py:122-128 | if no move ends the game, the choice is made by the frontier scan |
| Search.MinimaxRuleIsLegal | tictactoe.py:107-113 | a chosen move is an empty cell of the board |
| Search.MinimaxRuleTakesFirstFinish | tictactoe.py:112-116 | the first move, in visiting order, whose result ends the game is returned |
| Search.MinimaxRuleMovesIffNotLosing | tictactoe.py:122-128 | when no move ends the game, a move is returned iff the mover's game value is at least a draw |
| Search.MinimaxRuleMovesUnlessLosing | tictactoe.py:103-128 | on an unfinished board where the mover is not losing, a move is always returned |
| Search.NotLosingIffSomeReply | tictactoe.py:131-158 | the mover is not losing iff some legal move's child value is at least a draw for the mover |
| Search.ChildValueBounded | tictactoe.py:131-158 | no child value is better for the mover than the board's game value |
| Search.BestReply | tictactoe.py:131-158 | on an unfinished board some legal move's child value equals the game value |
| Search.OptimalMoveAttainsValue | tictactoe.py:103-105 | the separate argmax returns a legal move that attains the game value and is at least as good as every other move |
| Scenarios.MinimaxSettlesForDraw | tictactoe.py:122-128 | on `[[E,E,X],[X,E,O],[O,X,O]]` X can win by (0,1), yet when another move is visited first, minimax returns that move, whose value is a draw |
| Scenarios.MinimaxTakesImmediateWin | tictactoe.py:112-116 | on `[[X,X,E],[O,O,E],[E,E,E]]` minimax returns (0,2), the immediate win, in any visiting order |
| Scenarios.ThreatOthers | tictactoe.py:77-87 | on that board the four other moves complete no line and leave empty cells, so the game goes on |
| Scenarios.ThreatFinishes | tictactoe.py:77-87 | on that board a move ends the game iff it is (0,2) |
| Scenarios.DrawnIsDraw | tictactoe.py:77-100 | the full board `[[X,O,X],[X,X,O],[O,X,O]]`, which has no complete line, is over with score 0 |
| Scenarios.StartIsWin | tictactoe.py:131-143 | X's game value on the suboptimality board is a win |
| Scenarios.OtherMovesDraw | tictactoe.py:146-158 | on that board every move other than (0,1) leads to a draw |
| Scenarios.HiddenReached | tictactoe.py:51-58 | six legal moves from the start reach `[[E,E,E],[O,O,O],[X,X,X]]`, with X to move |
| Scenarios.HiddenMoveLoses | tictactoe.py:61-100 | on that board each of X's moves breaks the all-empty top row, so winner reports O's middle row: the game is over with score -1 |
| Scenarios.HiddenIsLost | tictactoe.py:131-143 | X's game value on that board is -1 |
| Scenarios.MinimaxPlaysLosingMove | tictactoe.py:112-116 | on that board minimax returns the first move visited, in any order, and that move loses |

## Left out

- `random.shuffle` (tictactoe.py:108, 137, 152) becomes a parameter `shuffle` that keeps the multiset of its input. It is a fixed function, so the same list is shuffled the same way at each call; the source may reorder it differently each time. `MaxValue`/`MinValue` are proved independent of the order, and `Minimax` is stated for whatever order the shuffle produces.
- `copy.deepcopy` (tictactoe.py:55) is implicit: boards are immutable values, so the input board is never changed.
- `None` for an empty cell, the marks as strings, and the truthiness test on `winner`'s result (tictactoe.py:81) become the `Cell` datatype. `winner` falling off its end becomes `Empty`.
- The types exclude boards that are not 3×3 and coordinates outside 0..2. The source never checks either.
- `Rules.Result` writes the mover's mark even on an occupied cell, as the source does. The facts about counts and turns are stated only for empty cells.
- The shuffle at the start of `minimax` (tictactoe.py:108) is taken as the `shuffle` parameter applied to `EmptyCells(b)`.
- The second loop of `minimax` (tictactoe.py:122-128) is the separate method `PickFromFrontier`. `Minimax` calls it on the list it built.
- Whole-tree facts whose proof needs the whole search tree, such as the value of the empty board, are not stated. The worked boards in `Scenarios` have few enough empty cells for their values to be proved case by case.
- There is no game driver, rendering or input loop in the modelled file. Interactive play is not modelled.
