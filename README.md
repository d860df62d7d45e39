# Cinasweeper board engine in Dafny

This project models the Minesweeper engine of Cinasweeper
(`src/cinasweeper_backend/cinasweeper_logic/minesweeper.py`) and proves
properties of the model. The engine has these parts:

- a board of hidden cells. A hidden cell holds its own `(row, col)` tuple, a
  flag holds `'F'` and an opened cell holds its count;
- random mine placement that never puts a mine on the first step;
- a count grid: `-1` on every mine, the number of neighbouring mines elsewhere;
- flag toggling;
- `check_ceil`, which opens a cell and, from a 0, opens its neighbours
  recursively. A module-level list `zeros` records the zeros already opened;
- `main`, which checks for a win, then opens a cell or toggles a flag.

Files, one module each:

- `cells.dfy` (`Cells`): coordinates, the three-way `Cell` datatype
  (`Hidden(row, col)`, `Flagged`, `Num(n)`), board geometry, and `Snapshot`,
  a value copy of a board.
- `board.dfy` (`Board`): `generate_board`, `get_step` and `flag`.
- `mines.dfy` (`Mines`): `set_mines`. The values `randint` draws are an input
  sequence.
- `info.dfy` (`Info`): `get_info_board`, its cell-by-cell meaning
  `InfoValue`, and the worked example from its documentation.
- `count.dfy` (`Count`): the counting loop at the start of `main`.
- `reveal.dfy` (`Reveal`): class `Sweeper`. Its field `zeros` stands for the
  module-level list. Its methods model `check_ceil` and `main`.

Boards and count grids are `array2` values updated in place, as the source
updates its nested lists. `check_ceil` and `main` are methods of `Sweeper`,
because they update the module-level `zeros`. `CheckCeil` is specified by the
predicate `Opened`. `Opened` relates the board and `zeros` after the call to
the board and `zeros` before it. The cascade loop `for y … for x …` is kept
as two nested loops. The inner loop is split out as `ScanRow`, and its body
as `VisitCell`, so that each proof stays small.

The model follows the code in these behaviours:

- `zeros` is never emptied. It carries over from one board to the next, and a
  coordinate already in it stops the cascade there.
- `flag` does not check what the cell holds. Flagging an opened count turns it
  into `'F'`, and a second toggle hides it again.
- `get_step` clamps coordinates only from below, to at least 0, although the
  comment above it speaks of checking that the step is inside the board. An
  upper out-of-range coordinate makes the source raise `IndexError`; the model
  excludes it by a precondition (see "Left out").

## Model

| member | source | states |
|---|---|---|
| Board.GenerateBoard | src/cinasweeper_backend/cinasweeper_logic/minesweeper.py:13-24 | a new Nat(height) x Nat(width) board (an empty range for a negative size); cell (r, c) holds the hidden marker Hidden(r, c) |
| Board.GetStep | src/cinasweeper_backend/cinasweeper_logic/minesweeper.py:114-116 | both components are at least 0; each equals the input, or is 0 when the input was negative; there is no upper clamp |
| Board.GetStepFixes | src/cinasweeper_backend/cinasweeper_logic/minesweeper.py:114-116 | clamping is idempotent and leaves non-negative coordinates unchanged |
| Board.Toggled | src/cinasweeper_backend/cinasweeper_logic/minesweeper.py:74-77 | the written value always differs from the old one; it is a flag exactly when the old value was not a flag; a flag becomes the marker of `step` |
| Board.ToggleTwice | src/cinasweeper_backend/cinasweeper_logic/minesweeper.py:74-77 | toggling twice gives the cell back exactly when it held a flag or the hidden marker of `step`; an opened count does not come back |
| Board.Flag | src/cinasweeper_backend/cinasweeper_logic/minesweeper.py:67-77 | board[step] becomes the toggled value; every other cell is unchanged |
| Board.FlagTwice | src/cinasweeper_backend/cinasweeper_logic/minesweeper.py:74-77 | flagging a hidden cell twice leaves the whole board as it was |
| Mines.Accumulate | src/cinasweeper_backend/cinasweeper_logic/minesweeper.py:38-41 | the set after n loop rounds never holds `step`, holds only drawn coordinates, and has at most n elements |
| Mines.AccumulateBound | src/cinasweeper_backend/cinasweeper_logic/minesweeper.py:38-41 | with in-range draws the set lies on the board without `step`, so it has at most height * width elements, one fewer when `step` is on the board |
| Mines.ListOf | src/cinasweeper_backend/cinasweeper_logic/minesweeper.py:42 | `list(mines)` has the same elements as the set, each once, and as many entries as the set |
| Mines.SetMines | src/cinasweeper_backend/cinasweeper_logic/minesweeper.py:27-42 | the draws run out or randint raises (a non-positive size with num_mines > 0) exactly in the stated cases; otherwise the result has exactly num_mines distinct in-bounds coordinates, none equal to `step`, is the accumulated set after the draws used, the loop stopped at the first draw that reached num_mines, and num_mines fits on the board |
| Info.NearCount | src/cinasweeper_backend/cinasweeper_logic/minesweeper.py:58-64 | the increments a cell receives, one per mine entry in its 3 x 3 block; never more than the number of entries |
| Info.InfoValue | src/cinasweeper_backend/cinasweeper_logic/minesweeper.py:55-64 | a cell's value is -1 exactly when it is a mine, and otherwise lies between 0 and the number of mine entries |
| Info.GetInfoBoard | src/cinasweeper_backend/cinasweeper_logic/minesweeper.py:45-65 | the grid has the board's shape, and every cell holds InfoValue: -1 on mines, else the neighbouring-mine count |
| Info.NearCountAppend | src/cinasweeper_backend/cinasweeper_logic/minesweeper.py:58-64 | the count over two concatenated mine lists is the sum of the two counts |
| Info.NearCountPermutation | src/cinasweeper_backend/cinasweeper_logic/minesweeper.py:58-64 | the count depends only on the multiset of mines, not on their order |
| Info.InfoPermutation | src/cinasweeper_backend/cinasweeper_logic/minesweeper.py:55-64 | reordering the mine list leaves every grid value unchanged |
| Info.NearCountDistinct | src/cinasweeper_backend/cinasweeper_logic/minesweeper.py:58-64 | for a list without repeats the count is the number of distinct neighbouring mines |
| Info.InfoRange | src/cinasweeper_backend/cinasweeper_logic/minesweeper.py:55-64 | with distinct mines, as set_mines returns them, every value lies in -1..8 |
| Info.GoldenInfoBoard | src/cinasweeper_backend/cinasweeper_logic/minesweeper.py:52-53 | a 3 x 3 board with mines (0,0), (1,2), (2,2) has the grid [[-1,2,1],[1,3,-1],[0,2,-1]] |
| Count.MinesLeft | src/cinasweeper_backend/cinasweeper_logic/minesweeper.py:120-124 | the counting loop returns the number of cells that are hidden or flagged |
| Count.UnrevealedBound | src/cinasweeper_backend/cinasweeper_logic/minesweeper.py:120-124 | the counted cells are board cells, at most height * width of them |
| Count.FreshBoardCount | src/cinasweeper_backend/cinasweeper_logic/minesweeper.py:24 | every cell of a board fresh from generate_board is counted |
| Count.ClearedCount | src/cinasweeper_backend/cinasweeper_logic/minesweeper.py:120-126 | when exactly the (distinct, in-bounds) mine cells are hidden or flagged, the count equals len(mines), so main reports a win |
| Count.FlagCount | src/cinasweeper_backend/cinasweeper_logic/minesweeper.py:74-77 | after a flag toggle the counted cells are those before plus `step`: a hidden or flagged cell stays counted, an opened one is counted again |
| Reveal.OpenedCount | src/cinasweeper_backend/cinasweeper_logic/minesweeper.py:97-111 | check_ceil never makes a cell counted again, and opening a hidden or flagged non-mine cell lowers the count |
| Reveal.Sweeper.constructor | src/cinasweeper_backend/cinasweeper_logic/minesweeper.py:9 | `zeros` starts empty |
| Reveal.Sweeper.CheckCeil | src/cinasweeper_backend/cinasweeper_logic/minesweeper.py:92-111 | the call terminates (the number of unvisited board cells decreases). A loss is reported exactly on a mine. A mine or a count of 1..8 changes no other cell and leaves `zeros` alone; a count is written to its cell. `zeros` only grows, and only by opened in-bounds zero cells. Every changed cell shows its count, is not a mine, and lies next to `step` or to a newly visited zero. From a 0, every non-mine neighbour of `step` and of each newly visited zero was in `zeros` before the call, or is open now, and is in `zeros` if it is a 0. A cell that was in `zeros` before the call, other than `step`, is not written, so a stale entry left by an earlier board keeps its cell hidden |
| Reveal.Sweeper.ScanRow | src/cinasweeper_backend/cinasweeper_logic/minesweeper.py:102-107 | one row of the cascade keeps the cascade invariant and settles that row of the block |
| Reveal.Sweeper.VisitCell | src/cinasweeper_backend/cinasweeper_logic/minesweeper.py:104-107 | one position of the cascade: the cascade invariant, holding for the block positions before (y, x), afterwards holds for (y, x) as well, and `zeros` only grows |
| Reveal.Sweeper.PlayTurn | src/cinasweeper_backend/cinasweeper_logic/minesweeper.py:119-131 | Win exactly when the hidden-or-flagged count before the move equals len(mines), and then nothing changes; otherwise a true action opens the clamped coordinate (Lose exactly on a mine, with the effect stated by CheckCeil, including that cells already in `zeros` other than the step are left as they were); a false one toggles the flag there and changes nothing else |

## Left out

- Printing: the table at the end of `main`, and `end_game`, which prints and
  calls `sys.exit`.
- `main0`, the interactive `input()` loop.
- `game.py` and `database.py`: game records and a Redis store. They are
  persistence, not board logic, and are not part of this model.
- The randomness of `randint`. Its values are the `draws` parameter, so
  uniformity and probabilistic termination are not modelled. When the draws
  run out before `num_mines` distinct coordinates are seen, `SetMines`
  returns `DrawsExhausted`. The source would keep drawing. If `num_mines` does
  not fit on the board, the source never returns, and no finite `draws` can
  produce `Placed`.
- Upper out-of-range coordinates. `get_step` does not clamp them, and Python
  would raise `IndexError`. `Flag`, `CheckCeil` and `PlayTurn` require the
  clamped coordinate to lie on the board. Python's negative indexing never
  arises, because coordinates are clamped and the cascade checks `>= 0`.
- The count grid must have the board's shape (`SameShape`). The source reads
  both grids with the same indices.
- `zeros` is a set, not a list. The source only appends to it and tests
  membership, so its order and repeats are not observable.
- The doctests at lines 35 and 52 call `set_mines` without `step` and use the
  old name `ceil_info_board`. Only what they promise is modelled: 10 mines,
  and the 3 x 3 grid.
- Info.InfoRange: the 0..8 bound holds only for a mine list without repeats.
  `get_info_board` itself counts a repeated entry twice, as `NearCount` does.
- Reveal.Sweeper.CheckCeil: the contract does not say that the newly visited
  zeros are connected to `step`. It says they are opened zero cells, that
  every changed cell lies next to `step` or to one of them, and that the
  region they form is closed.
- Reveal.Sweeper.CheckCeil: the model has no recursion-depth limit.
  `check_ceil` recurses once per newly opened zero, and Python's default limit
  of 1000 frames would make a deep cascade (a 40 x 40 board without mines, for
  example) raise `RecursionError` out of `main`; `CheckCeil` always finishes.
