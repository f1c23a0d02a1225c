# Tic-tac-toe rules and minimax search

This project is a Dafny model of `tictactoe/tictactoe.py`. That file holds
the rules of 3x3 tic-tac-toe and an exhaustive minimax search that picks the
move for the side whose turn it is.

- `rules.dfy` (module `Rules`) models the board rules:
  - the starting board;
  - whose turn it is (`player`);
  - the empty squares (`actions`);
  - making a move (`result`);
  - the winner, the end of the game (`terminal`) and its score (`utility`).
- `search.dfy` (module `Search`) models `maxvalue`, `minvalue` and `minimax`.

The source's loops are methods with loop invariants, and each is proved
equal to a pure specification function:
- `player` against `ToMove`;
- `actions` against `LegalActions`;
- `winner` against `WinnerOf`;
- `maxvalue` and `minvalue` against `Value`, the game-theoretic value defined
  by recursion over the game tree.

The board is a value (three rows of three squares), so `result` builds a new
board and the old one cannot change. The search terminates because every
move fills one empty square, and there are at most nine.

The order of `actions` is fixed here. The source keeps the legal moves in a
Python `set`, and the search keeps the first move that strictly improves the
running best. The move chosen among equally good ones therefore depends on
the order in which the set is iterated. The model iterates in the order the
moves are added: row by row, left to right. The set itself is a sequence
without repeats.

`winner` returns the mark of the first complete line in checking order:
rows, then columns, then the main diagonal, then the anti-diagonal. On a
board where both players hold a line, the earlier line decides. The model
follows this.

## Model

| member | source | states |
|---|---|---|
| Rules.InitialState | tictactoe/tictactoe.py:13-19 | all nine squares of the starting board are empty |
| Rules.InitialToMove | tictactoe/tictactoe.py:13-45 | on the starting board X is to move and nine squares are empty |
| Rules.EmptyCountBound | tictactoe/tictactoe.py:17-19 | a board has at most nine empty squares (the bound on the search's measure) |
| Rules.ToMoveParity | tictactoe/tictactoe.py:39-45 | X is to move exactly when the number of occupied squares is even, otherwise O |
| Rules.Player | tictactoe/tictactoe.py:22-45 | the nested counting loop returns the player to move, `ToMove` |
| Rules.MovesSpec | tictactoe/tictactoe.py:53-59 | every collected move is an empty square of the board, none is collected twice, and they come in row-major order |
| Rules.MovesMember | tictactoe/tictactoe.py:53-59 | a move is collected exactly when it names an empty square with both coordinates in 0..2 |
| Rules.MovesNone | tictactoe/tictactoe.py:62-63 | no move is collected exactly when the board has no empty square |
| Rules.LegalActionsMeaning | tictactoe/tictactoe.py:48-66 | actions is None exactly when the board is full; otherwise it holds exactly the empty squares, is non-empty and has no repeats |
| Rules.Actions | tictactoe/tictactoe.py:48-66 | the collecting loop returns `LegalActions` |
| Rules.PyIndex | tictactoe/tictactoe.py:78 | a subscript of a list of three is valid exactly for -3..2, and a negative one refers to the square counted from the end |
| Rules.Play | tictactoe/tictactoe.py:75-83 | the new board has the mover's mark on the chosen square, every other square unchanged, and one empty square fewer |
| Rules.Apply | tictactoe/tictactoe.py:69-85 | IndexError exactly for a coordinate outside -3..2; for coordinates in -3..2, "Invalid move" exactly when the square they refer to (negative ones counted from the end) is taken; a legal move gives the board of `Play` |
| Rules.ApplyOk | tictactoe/tictactoe.py:75-85 | a successful move fills an empty square with the mover's mark, leaves the other eight squares alone, removes one empty square and passes the turn |
| Rules.Result | tictactoe/tictactoe.py:69-85 | copying the board and writing one square gives `Apply` |
| Rules.FirstWinnerMeaning | tictactoe/tictactoe.py:93-160 | scanning lines from position k yields m exactly when the first complete line from k is m's, and None exactly when no line from k is complete |
| Rules.WinnerMeaning | tictactoe/tictactoe.py:88-160 | the winner is m exactly when the first complete line in checking order is m's; a winner holds a whole line; there is no winner exactly when neither X nor O holds a line |
| Rules.Winner | tictactoe/tictactoe.py:88-160 | the four loop nests (rows, columns with the n/k counters, the two diagonals) return `WinnerOf` |
| Rules.Terminal | tictactoe/tictactoe.py:163-173 | the game is over exactly when X or O holds a line or no square is empty |
| Rules.Utility | tictactoe/tictactoe.py:176-191 | the score lies in -1..1; it is 1 exactly when the winner is X and -1 exactly when the winner is O; 1 means X holds a line, -1 means O holds a line, and 0 exactly when nobody does |
| Search.UnfinishedMoves | tictactoe/tictactoe.py:223-227 | on a board that is not over, `actions` returns a non-empty sequence of moves |
| Search.BackupExtremum | tictactoe/tictactoe.py:225-230 | over a non-empty list of outcomes, the running max (min) from the -inf (+inf) sentinel ends at one of them, in -1..1, no smaller (larger) than any |
| Search.BackupStops | tictactoe/tictactoe.py:235-236 | once the running max reaches 1 (the running min reaches -1), scanning the rest of the moves leaves it there, so the early return loses nothing |
| Search.Value | tictactoe/tictactoe.py:216-265 | the game value lies in -1..1 |
| Search.ChildValueAt | tictactoe/tictactoe.py:227-229 | the k-th child value is the opponent's value of the board after the k-th move |
| Search.ValueOptimal | tictactoe/tictactoe.py:216-265 | no legal move gives the side to move more (the maximiser) or less (the minimiser) than the value, and some move in the list reaches it first |
| Search.ImmediateWin | tictactoe/tictactoe.py:235-236 | if a move wins at once for the side to move, the value is that side's win |
| Search.FoundFirstBest | tictactoe/tictactoe.py:232-239 | the position the loop records is the first move in the list that reaches the value |
| Search.FirstBestMeaning | tictactoe/tictactoe.py:232-233 | the first best move is a legal move and reaches the value of the board |
| Search.FirstBestUnique | tictactoe/tictactoe.py:232-233 | at most one move is the first best one, so the choice is deterministic |
| Search.MaxValue | tictactoe/tictactoe.py:216-239 | returns the game value for X to move; no move exactly on a finished game; otherwise the first move that reaches the maximum, as the early return leaves it |
| Search.MinValue | tictactoe/tictactoe.py:242-265 | returns the game value for O to move; no move exactly on a finished game; otherwise the first move that reaches the minimum |
| Search.Minimax | tictactoe/tictactoe.py:194-213 | None exactly on a finished game; otherwise a legal move of the player to move that reaches the value of the board, the first such move in row-major order |

## Left out

- The game's user interface and driver loop are not part of this model.
- `copy.deepcopy` is not modelled as an operation. Boards are values, so the copy in `result` is plain assignment, and the caller's board cannot change.
- The `math.inf` and `-math.inf` starting bounds of `maxvalue` and `minvalue` are the integers 2 and -2. Every outcome lies in -1..1, so the comparisons come out the same.
- The iteration order of the Python set returned by `actions` is not specified by Python. The model fixes it to insertion order, which is row-major, and represents the set as a sequence without repeats.
- In the source, `best_move` in `maxvalue` and `minvalue` has no value before the first improvement. The model gives it a placeholder with no move. The first move always improves on the sentinel, so the placeholder is never returned from a board that is not over.
- The unused `passes` variable of `winner` is not modelled.
- Square values other than X, O and EMPTY cannot be represented. Neither can boards that are not three rows of three squares.
- Actions are pairs of integers. Python tuples of other lengths or element types cannot be represented.
- An exception raised by `result` is an `Err` value of `Outcome`, not an exception.
- Search.Value: the value of the starting board (a draw) is not proved. Proving it means evaluating the whole game tree inside the verifier.
