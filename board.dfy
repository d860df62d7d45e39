/** Board creation, coordinate clamping and flag toggling (generate_board, get_step, flag). */
module Board {
  import opened Cells

  /** generate_board: a height x width grid where every cell holds the
      hidden marker, its own coordinate. A negative dimension gives an
      empty range, as Python's `range` does. */
  method GenerateBoard(height: int, width: int) returns (board: array2<Cell>)
    ensures fresh(board)
    ensures board.Length0 == Nat(height) && board.Length1 == Nat(width)
    ensures forall r, c | 0 <= r < board.Length0 && 0 <= c < board.Length1 ::
      board[r, c] == Hidden(r, c)
  {
    board := new Cell[Nat(height), Nat(width)]((r, c) => Hidden(r, c));
  }

  /** get_step: each component is raised to at least 0; there is no upper clamp. */
  function GetStep(x: int, y: int): (s: Coord)
    ensures s.0 >= 0 && s.1 >= 0
    ensures s.0 == x || (x < 0 && s.0 == 0)
    ensures s.1 == y || (y < 0 && s.1 == 0)
  {
    (if x < 0 then 0 else x, if y < 0 then 0 else y)
  }

  /** Clamping is idempotent and leaves a non-negative coordinate alone. */
  lemma GetStepFixes(x: int, y: int)
    ensures GetStep(GetStep(x, y).0, GetStep(x, y).1) == GetStep(x, y)
    ensures x >= 0 && y >= 0 ==> GetStep(x, y) == (x, y)
  {
  }

  /** The value `flag` writes: a flag becomes the coordinate marker of
      `step`, anything else (hidden or even an opened count) becomes a flag. */
  function Toggled(cell: Cell, step: Coord): (t: Cell)
    ensures t != cell
    ensures t.Flagged? <==> !cell.Flagged?
    ensures cell.Flagged? ==> t == Hidden(step.0, step.1)
  {
    if cell == Flagged then Hidden(step.0, step.1) else Flagged
  }

  /** Toggling twice restores exactly the flagged cells and the cells that
      hold their own hidden marker; an opened count does not come back. */
  lemma ToggleTwice(cell: Cell, step: Coord)
    ensures Toggled(Toggled(cell, step), step) == cell <==>
            (cell == Flagged || cell == Hidden(step.0, step.1))
  {
  }

  /** flag: toggles board[step] in place and touches no other cell. */
  method Flag(board: array2<Cell>, step: Coord)
    requires InBounds(board.Length0, board.Length1, step)
    modifies board
    ensures board[step.0, step.1] == Toggled(old(board[step.0, step.1]), step)
    ensures forall r, c | 0 <= r < board.Length0 && 0 <= c < board.Length1 && (r, c) != step ::
      board[r, c] == old(board[r, c])
  {
    if board[step.0, step.1] == Flagged {
      board[step.0, step.1] := Hidden(step.0, step.1);
    } else {
      board[step.0, step.1] := Flagged;
    }
  }

  /** Flagging a fresh hidden cell twice gives the board back unchanged. */
  method FlagTwice(board: array2<Cell>, step: Coord)
    requires InBounds(board.Length0, board.Length1, step)
    requires board[step.0, step.1] == Hidden(step.0, step.1)
    modifies board
    ensures forall r, c | 0 <= r < board.Length0 && 0 <= c < board.Length1 ::
      board[r, c] == old(board[r, c])
  {
    Flag(board, step);
    assert board[step.0, step.1] == Flagged;
    Flag(board, step);
  }
}
