# Connect-Four players: a Dafny model

This project models the move-choosing logic of `connect_4_revised/players.py`, the
player classes of a Connect-Four game:

- the **legal-column filter**: keep the column indices whose `topPosition` is not
  negative, in increasing order (`LegalMoves`). `randomAI` and `stupidAI` run it before
  choosing; MAX and MIN run it at every node that is neither game over nor at depth 0;
- **`humanConsole`**: the loop that keeps reading a column until `0 <= m <= 6` and the
  column has room (`SimplePlayers.ConsolePlay`);
- **`randomAI`**: some legal column, or `IndexError` from `random.choice` when there is
  none (`SimplePlayers.RandomPlay`);
- **`stupidAI`**: the fixed priority 3, 2, 1, 5, 6, then 0 (`SimplePlayers.StupidPlay`);
- **`minimaxAI.simulateMove`**: writes the player to move's token into one cell of the
  board, in place (`Board.Env.SimulateMove`);
- **`minimaxAI.MAX` / `MIN`**: a depth-bounded mutual recursion that deep-copies the
  environment for every legal column, simulates the move on the copy and folds the
  children's values into a running `value` (`Minimax.Max`, `Minimax.Min`).

The environment (`connect4`) is not part of this model. Its `gameOver()` and the
static evaluation are parameters of the search: a `Game` value carries them as total
functions of a `Position`. Scores are `NegInf | Fin(n) | PosInf`, mirroring the mix of
`-np.inf`, integers and `np.inf` that the Python values take.

Modelling choices:

- The board is an `array2<int>` indexed `board[column, row]`, as `simulateMove` indexes it.
  `topPosition` is an `array<int>`. `Env.Snapshot()` reads both as a `Position` value.
  The search is specified on that value (`Minimax.Value`, `Minimax.Fold`). The imperative
  `Max`/`Min` methods are proved to compute it.
- `Max` and `Min` have no `modifies` clause. Dafny therefore checks that they never change
  the board or `topPosition` they are given. Every child is a fresh deep copy (`Env.Clone`)
  with the move simulated on it.
- `simulateMove` changes neither `topPosition` nor the player to move. The children in the
  search therefore share the parent's legal columns and token, as in the source.
- The call sites bind their arguments wrongly. `self.evaluationFunction(env.board)` and
  `self.simulateMove(envCopy, column, self.position)` call methods that have no `self`
  parameter, so in Python they would raise `TypeError`. The model uses the evident binding:
  evaluate the position, and simulate `column` on the copy. The unused `position`
  argument is dropped.
- MIN folds its children with `max` (line 206). The `Game.variant` field selects this
  behaviour as written (`AsWritten`) or the `min` that is evidently intended (`Intended`).
  The search has one definition and one pair of methods for both; see Findings.
- `alphaBetaAI.play` (lines 231-232) is `pass`. players.py has no alpha-beta pruning, no
  windowed evaluator, no win or draw detector and no move ordering, so the model has none.

## Model

| member | source | states |
|---|---|---|
| `Scores.Max` | connect_4_revised/players.py:190 | `max(value, child)` is an upper bound of both arguments and equal to one of them |
| `Scores.Min` | connect_4_revised/players.py:206 | the corrected combination of the Findings row: `min(value, child)` is a lower bound of both arguments and equal to one of them |
| `LegalMoves.LegalColumns` | connect_4_revised/players.py:68-71 | every index in the filtered list is a column with `topPosition >= 0` |
| `LegalMoves.LegalColumnsComplete` | connect_4_revised/players.py:82-85 | every column with `topPosition >= 0` is in the filtered list |
| `LegalMoves.LegalColumnsMembership` | connect_4_revised/players.py:182-185 | an index is in the list if and only if its column is legal |
| `LegalMoves.LegalColumnsIncreasing` | connect_4_revised/players.py:69-71 | the list is strictly increasing, so each legal column appears exactly once |
| `LegalMoves.CollectLegal` | connect_4_revised/players.py:68-71 | the `enumerate`/`append` loop over `topPosition` builds exactly that list, and an index is in it if and only if its column is legal |
| `SimplePlayers.AcceptsMove` | connect_4_revised/players.py:31 | the console test accepts `m` exactly when `m <= 6` and `m` is in the legal-column list the AI players build |
| `SimplePlayers.AcceptsExactlyLegal` | connect_4_revised/players.py:31 | on a seven-column board the console test accepts `m` if and only if `m` is a legal column |
| `SimplePlayers.ConsolePlay` | connect_4_revised/players.py:28-33 | the console returns the first input that passes the test, after rejecting all earlier ones; it runs out of input only when none passes |
| `SimplePlayers.RandomPlay` | connect_4_revised/players.py:67-72 | the chosen column is legal; `IndexError` happens exactly when no column is legal |
| `SimplePlayers.PriorityChoice` | connect_4_revised/players.py:86-97 | the result is the first of 3, 2, 1, 5, 6 in the list, or 0 when none is; it is never 4 |
| `SimplePlayers.StupidPlay` | connect_4_revised/players.py:81-97 | returns 3 whenever column 3 is legal, else the first legal of 2, 1, 5, 6, else 0 (whether or not column 0 is legal); never 4 |
| `Board.RowIndex` | connect_4_revised/players.py:175 | a top position in `[-n, n)` names a row in `[0, n)`, counted from the end when negative, as numpy does |
| `Board.Child` | connect_4_revised/players.py:174-175 | the simulated move keeps `topPosition` and the player to move, and the result is a well-formed board |
| `Board.ChildChangesOneCell` | connect_4_revised/players.py:175 | the child holds the player to move's token at `(column, topPosition[column])` and equals its parent in every other cell |
| `Board.Env.SimulateMove` | connect_4_revised/players.py:174-175 | writes the player to move's token into `board[column][topPosition[column]]`; every other cell and all of `topPosition` are unchanged |
| `Board.Env.Clone` | connect_4_revised/players.py:188 | `copy.deepcopy(env)` gives a fresh environment with fresh arrays and the same contents |
| `Minimax.Expand` | connect_4_revised/players.py:188-189 | deep copy plus simulated move gives the child position; the original environment is not touched |
| `Minimax.Combine` | connect_4_revised/players.py:190-206 | the running value is replaced by the child's value or kept; at MAX nodes (and MIN nodes as written) the result bounds both from above, at MIN nodes as intended from below |
| `Minimax.Fold` | connect_4_revised/players.py:186-191 | the loop over the legal columns: the running value only rises where the node folds with `max` and only falls where it folds with `min` |
| `Minimax.Value` | connect_4_revised/players.py:193-207 | the MAX/MIN search as written: a MIN node of depth at least 1 returns `+inf`, terminal or not, because it starts at `+inf` and folds with `max` |
| `Minimax.FoldMaxBounds` | connect_4_revised/players.py:186-191 | folding with `max` ends at an upper bound of the start value and of every child's value, equal to one of them |
| `Minimax.FoldMinBounds` | connect_4_revised/players.py:202-207 | folding with `min` ends at a lower bound of the start value and of every child's value, equal to one of them |
| `Minimax.LeafValues` | connect_4_revised/players.py:177-197 | on game over MAX returns `-inf` and MIN `+inf` at every depth, since game over is tested first; otherwise at depth 0 both return the evaluation |
| `Minimax.MaxNodeIsMaximum` | connect_4_revised/players.py:177-191 | a non-terminal MAX node of depth at least 1 returns the largest MIN value over the children of the legal columns, and `-inf` when there are none |
| `Minimax.MaxNodeAsWrittenAtDepthTwo` | connect_4_revised/players.py:177-207 | as written, a non-terminal MAX node of depth at least 2 returns `+inf` when some column is legal and `-inf` otherwise |
| `Minimax.MinNodeIntendedIsMinimum` | connect_4_revised/players.py:202-207 | with `min`, a non-terminal MIN node of depth at least 1 returns the smallest MAX value over its children, and `+inf` when there are none |
| `Minimax.MinAsWrittenIgnoresChildren` | connect_4_revised/players.py:206 | on a one-cell board with no game over and evaluation 0, MIN at depth 1 returns `+inf` as written but 0 as intended |
| `Minimax.Max` | connect_4_revised/players.py:177-191 | the imperative MAX (deep copy, simulate, recurse, running `max`) returns the specified MAX value of the environment's position |
| `Minimax.Min` | connect_4_revised/players.py:193-207 | the imperative MIN returns the specified MIN value of the environment's position, for either way of combining |

## Left out

- `humanGUI`, every pygame call, the display constants (lines 234-255) and the colour swap
  of `CVDMode` (lines 15-19): rendering and mouse input.
- `connect4Player.play` (`move = -1`): a placeholder that no subclass uses.
- Console I/O of `humanConsole`: the typed lines are the parameter `inputs`, already
  parsed as integers. The `ValueError` of `int()` on bad text is not modelled. When the
  inputs run out the model returns `InputExhausted`; the program would block or raise
  `EOFError`.
- `SimplePlayers.AcceptsMove`: requires at least seven columns. On a narrower
  `topPosition` the source raises `IndexError` for some `m <= 6`, and that is not modelled.
- `random.seed` and the distribution of `random.choice`: only membership in the legal
  list is modelled.
- `minimaxAI.evaluationFunction`: its indexing leaves the board (negative indices wrap,
  `col + i` can raise `IndexError`). The search takes the evaluation as the parameter
  `evaluate` instead.
- `minimaxAI.play`: it discards the search result and never sets `move_dict['move']`
  (line 213 assigns to a slice of the dict instead). There is no move choice to model
  beyond the call to MAX at depth 2; `MaxNodeAsWrittenAtDepthTwo` states what that call
  returns.
- `alphaBetaAI.play`: its body is `pass`.
- The `connect4` class: `gameOver()` and the static evaluation are parameters. How
  `topPosition` is maintained, the board shape and `turnPlayer` are taken as given.
- `Board.Env.Valid`: the model assumes the board's first axis is the column axis, with
  one entry per `topPosition` entry, and no top position past the last row. On any other
  shape, such as the `(rows, columns)` shape line 107 reads from `env.shape`, line 175
  writes a different (transposed) cell for columns below the first axis's length and
  raises `IndexError` only for columns at or beyond it; neither case is modelled.
- `Board.Env.SimulateMove`: requires the top position to be at least minus the number of
  rows. Below that numpy raises `IndexError`, which is not modelled; the search only
  simulates legal columns, whose top position is not negative.
- Python's float/int mixing in the scores: `-np.inf` and `np.inf` are floats and the
  evaluation returns ints. The model uses one ordered `Score` type.

## Findings

| source | as written | input that shows it | evidently intended | confidence | as-written member | corrected member |
|---|---|---|---|---|---|---|
| connect_4_revised/players.py:206 | MIN starts at `+inf` and folds with `value = max(value, self.MAX(...))`, so it never goes below `+inf` | a one-column, one-row board with `topPosition` `[0]`, `gameOver()` false and evaluation 0, searched at depth 1 with the call binding described under Modelling choices: MIN returns `+inf` although its only child is worth 0 | `value = min(value, ...)`, so MIN returns the smallest value of its children | high; not executed | `Minimax.MinAsWrittenIgnoresChildren` | `Minimax.MinNodeIntendedIsMinimum` |

The search is written once and takes `Game.variant` as a parameter. `AsWritten` is the
`max` fold of line 206; the contract of `Minimax.Value` states that every MIN node of depth at
least 1 is then `+inf`. `Intended` uses `min`, and `MinNodeIntendedIsMinimum` proves the
minimax property. The imperative `Minimax.Min` computes the specified value under either
variant.
