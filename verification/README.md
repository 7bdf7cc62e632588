# Tic-tac-toe engine: board rules and exhaustive minimax

This project models the game-logic half of the `Game` class of a pygame
tic-tac-toe program (`game.py`), and proves what that logic promises.

The board is the list of nine cells in row-major order. Each cell holds `X`,
`O` or `EMPTY`. The engine has three layers:

- **Board queries** (module `Board`, file `board.dfy`):
  - whose turn it is, inferred from the mark counts;
  - the legal moves (the empty cells, ascending);
  - the board after a move, or the `Invalid Action` exception;
  - the winner, found by scanning the eight win lines in their fixed order;
  - whether the game has ended;
  - the utility of an ended game for the human (`+1` human won, `-1` bot won,
    `0` otherwise), or the `The game has not ended` exception.
- **Minimax values** (module `Search`, file `search.dfy`):
  - `MaxValue` is the value of a board when the human (the maximiser) is to
    choose.
  - `MinValue` is the value when the bot (the minimiser) is to choose.
  - Both are defined as mutually recursive functions over the successors of a
    board, and the source's loops are methods proved equal to them.
- **Move selection** (module `Search`): `Minimax` is the bot's move chooser.
  It scans the legal moves in ascending order. It keeps a move only when the
  successor's `MaxValue` is strictly below the best so far. The result is
  proved to be the lowest legal move of least successor value.

The human's mark is a parameter (`human`). The bot's mark is
`Opponent(human)`. Exceptions are the `Fail` side of an `Outcome` value
(`wrappers.dfy`).

The turn rule follows the code: O moves when X has more marks, otherwise X.

## Model

| member | source | states |
|---|---|---|
| Board.Opponent | game.py:14-15 | the other side of a player is X or O and never the player itself |
| Board.Player | game.py:46-50 | the mover is never EMPTY; it is O exactly when X has more marks than O, otherwise X |
| Board.PlayerAlternates | game.py:46-50 | on a board where X leads O by zero or one, X moves when the counts are level and O when X is one ahead |
| Board.EmptyBoardStartsWithX | game.py:17 | the empty board satisfies the alternation invariant and X moves first on it |
| Board.IncreasingOrder | game.py:52-53 | in a list built in index order, an earlier element is below every later one |
| Board.ActionsFrom | game.py:52-53 | the moves from index i on are exactly the empty cells at or after i, in increasing order |
| Board.Actions | game.py:52-53 | a number is a legal move exactly when it indexes an empty cell, and the moves are strictly increasing |
| Board.NoActionsIffFull | game.py:52-53 | there are no legal moves exactly when no cell is empty |
| Board.Result | game.py:55-61 | raises InvalidAction exactly when the move is not an empty cell; otherwise the new board has the mover's mark at the move and every other cell unchanged, one fewer empty cell, and one more mark of the mover |
| Board.ResultCopy | game.py:55-61 | the copy-then-assign of the source on arrays: the same error case, the input array untouched, and a fresh array holding exactly Result's board |
| Board.ResultKeepsAlternation | game.py:55-61 | a legal move on a board whose marks alternate, X first, keeps them alternating |
| Board.Completes | game.py:65 | a win line is completed exactly when its three cells are all X or all O |
| Board.WinnerFrom | game.py:63-67 | the reported winner is never EMPTY |
| Board.WinnerFromIsFirstCompleted | game.py:63-67 | the scan finds no winner exactly when no line is completed; otherwise it returns the mark of the first completed line in list order |
| Board.Winner | game.py:63-67 | the winner of a nine-cell board is never EMPTY |
| Board.WinnerIsFirstCompleted | game.py:63-67 | the winner is None exactly when none of the eight win lines is completed; otherwise it is the mark on the first completed line, in the fixed order of rows, columns, diagonals |
| Board.Terminal | game.py:69-73 | a game that has not ended has a legal move |
| Board.TerminalIffLineOrFull | game.py:69-73 | the game has ended exactly when some win line is completed or no cell is empty, so a full board has ended and so has a board with a completed line and empty cells |
| Board.Utility | game.py:75-84 | raises NotTerminal exactly on a running game; otherwise the score is in -1..1, and it is 1 exactly when the human won, -1 exactly when the bot won, 0 exactly when nobody won |
| Board.UtilityZeroSum | game.py:75-84 | the human's score of an ended game is minus the bot's score |
| Board.LastCellActions | game.py:52-53 | on [X,O,X,O,X,O,O,X,EMPTY] the only legal move is 8 |
| Board.LastCellRunning | game.py:69-73 | on [X,O,X,O,X,O,O,X,EMPTY] the game has not ended |
| Board.LastCellPlayer | game.py:46-50 | on [X,O,X,O,X,O,O,X,EMPTY] X is to move |
| Board.CompletedLineScenario | game.py:63-73 | a completed top row of O gives winner O and an ended game while legal moves remain |
| Search.MaxOf | game.py:105-107 | folding max from minus infinity gives minus infinity on no values; otherwise it gives one of the values and bounds all of them |
| Search.MinOf | game.py:115-117 | folding min from plus infinity gives plus infinity on no values; otherwise it gives one of the values and is below all of them |
| Search.MaxOfStep | game.py:105-107 | scanning one more value folds it into the running maximum |
| Search.MinOfStep | game.py:115-117 | scanning one more value folds it into the running minimum |
| Search.MaxOfNegated | game.py:101-119 | the max over values is minus the min over their negations |
| Search.MaxValue | game.py:101-109 | the human's value of any board is in -1..1, so the infinite sentinel never escapes |
| Search.MinValue | game.py:111-119 | the bot's value of any board is in -1..1 |
| Search.ValueOfEndedGame | game.py:101-119 | on an ended game both values equal the utility for the human |
| Search.MinValues | game.py:106-107 | one successor value per move, each in -1..1 |
| Search.MaxValues | game.py:116-117 | one successor value per move, each in -1..1 |
| Search.MinValuesAt | game.py:106-107 | the k-th entry is the MinValue of the board after the k-th move, and that move is legal |
| Search.MaxValuesAt | game.py:116-117 | the k-th entry is the MaxValue of the board after the k-th move, and that move is legal |
| Search.MaxValueIsBestMove | game.py:101-109 | on a running game no legal move gives the human more than MaxValue, and some legal move gives exactly MaxValue |
| Search.MinValueIsBestReply | game.py:111-119 | on a running game no legal move gives the human less than MinValue, and some legal move gives exactly MinValue |
| Search.ZeroSum | game.py:101-119 | the human's MaxValue of a board is minus the bot's MinValue of it, and the human's MinValue is minus the bot's MaxValue |
| Search.MaxValueSearch | game.py:101-109 | the source's procedure returns exactly MaxValue |
| Search.MaxOverMoves | game.py:105-109 | the loop over the moves returns the max of the successors' MinValue, starting from minus infinity |
| Search.MinValueSearch | game.py:111-119 | the source's procedure returns exactly MinValue |
| Search.MinOverMoves | game.py:115-119 | the loop over the moves returns the min of the successors' MaxValue, starting from plus infinity |
| Search.MoveValue | game.py:94 | the value computed for the i-th move is the MaxValue of the board after it |
| Search.BestMoveScan | game.py:90-99 | no choice exactly when there are no moves; otherwise the chosen move is at the first position of the least successor value |
| Search.LeastIsNoWorse | game.py:93-97 | a move at a position of least successor value gives the human no more than any legal move |
| Search.FirstLeastBeatsSmaller | game.py:93-97 | a move at the first position of least value gives strictly less than every smaller legal move |
| Search.LowestLeastIsBestMove | game.py:93-97 | the first position of least successor value holds the best move |
| Search.Minimax | game.py:86-99 | None exactly on an ended game; otherwise a legal move whose successor has the least MaxValue over all legal moves, and no smaller legal move reaches that value, so later ties never replace an earlier choice |
| Search.OnlyMoverCompletes | game.py:55-67 | a legal move from a running game completes lines only with the mark of the side that moved |
| Search.OnlyMoverWins | game.py:55-67 | after a legal move from a running game there is no winner or the mover is the winner, so two different winners never arise in play |
| Search.BestMoveReachesValue | game.py:86-99 | on a running game the bot's move reaches the board's MinValue; seen from the bot's side it reaches the bot's MaxValue and no legal move gives the bot more, so the bot plays for itself |
| Search.DiagonalReplyIsBestMove | game.py:86-99 | on [X,O,X,O,X,O,EMPTY,EMPTY,EMPTY] with the human as O, cell 6 is legal, wins for X at once, and is the bot's unique best move |
| Search.BestMoveUnique | game.py:93-97 | at most one move is the best move, so the bot's choice is determined by the board |

## Left out

- Rendering with pygame (`Game.play` drawing and text, `Board.render`, `Cell.render` and the symbol renderers): foreign library calls with no statable logic.
- Mouse and event handling (`Game.handleEvents`, `Board.handlePlayer`): these depend on the mouse position, rectangle hit tests and `time.sleep`.
- The random choice of which side the bot plays: it is nondeterministic, so the human's mark is a parameter.
- The turn toggling and the bot's cell write in `Game.play`, and the `Board`/`Cell` objects around pygame surfaces: UI state that only calls the modelled functions.
- `main.py` (window, event loop, clock): input/output plumbing.
- `math.inf` and `-math.inf` are the integers 2 and -2. This is exact here, because every value they are compared with lies in -1..1.
- Boards are values. `Board.Result` returns a new sequence, and `Board.ResultCopy` shows the list copy on arrays. The search does not use arrays.
- A move is an integer. Python accepts any value in `action not in ...` and raises for anything that is not an empty index; the model covers integer arguments only.
- Board.Winner: requires a nine-cell board. The board always has nine cells, because `Board._init` builds a 3×3 grid and `get_state` projects it (game.py:169-174). Lists of other lengths are not modelled. The same holds for Board.Terminal, Board.Utility and the search.
- Board.Winner: its own contract states only that the winner is never EMPTY. The full characterisation is the lemma `Board.WinnerIsFirstCompleted`, kept apart so that the search proofs stay small.
- Board.Terminal: its own contract states only that a running game has a legal move. The full characterisation is the lemma `Board.TerminalIffLineOrFull`.
- Search.MaxValue: the equality with the utility on ended games is the separate lemma `Search.ValueOfEndedGame`, not a postcondition. The same holds for Search.MinValue.
- That the bot never loses is not proved, for example `MinValue(EmptyBoard, O) <= 0` and `MaxValue(EmptyBoard, X) <= 0`. Neither is the optimal first move on the empty board. Both need the value of the whole game tree, and evaluating that inside the verifier is far beyond its resource bound. What is proved instead is `Search.BestMoveReachesValue`: every move the bot chooses reaches the board's minimax value and maximises the bot's own value.
