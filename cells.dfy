/** Shared vocabulary of the board engine: coordinates, cells and the grid geometry. */
module Cells {

  /** A (row, column) pair, as the source's coordinate tuples. */
  type Coord = (int, int)

  /** One board cell. The source keeps three kinds of value in one matrix:
      the cell's own coordinate tuple while it is hidden, the string 'F' for
      a flag, and the integer count once the cell has been opened. */
  datatype Cell = Hidden(row: int, col: int) | Flagged | Num(n: int)

  /** A cell that the win check counts: still hidden, or flagged. */
  predicate Unrevealed(cell: Cell) {
    cell.Hidden? || cell.Flagged?
  }

  /** Python's `range(n)` is empty for a negative `n`. */
  function Nat(n: int): nat {
    if n < 0 then 0 else n
  }

  predicate InBounds(height: int, width: int, p: Coord) {
    0 <= p.0 < height && 0 <= p.1 < width
  }

  /** (i, j) lies in the 3 x 3 block centred on `p` (p itself included). */
  predicate Adjacent(p: Coord, i: int, j: int) {
    -1 <= i - p.0 <= 1 && -1 <= j - p.1 <= 1
  }

  /** Every in-bounds coordinate of a height x width board. */
  function AllCells(height: nat, width: nat): set<Coord> {
    set i, j | 0 <= i < height && 0 <= j < width :: (i, j)
  }

  function Row(i: int, width: nat): set<Coord> {
    set j | 0 <= j < width :: (i, j)
  }

  lemma {:induction false} RowSize(i: int, width: nat)
    ensures |Row(i, width)| == width
  {
    if width > 0 {
      RowSize(i, width - 1);
      assert Row(i, width) == Row(i, width - 1) + {(i, width - 1)};
    }
  }

  /** The board has exactly height * width coordinates. */
  lemma {:induction false} AllCellsSize(height: nat, width: nat)
    ensures |AllCells(height, width)| == height * width
  {
    if height > 0 {
      var top, last := AllCells(height - 1, width), Row(height - 1, width);
      AllCellsSize(height - 1, width);
      RowSize(height - 1, width);
      assert AllCells(height, width) == top + last by {
        forall p | p in AllCells(height, width) ensures p in top + last {
          if p.0 < height - 1 { assert p in top; } else { assert p in last; }
        }
      }
      assert top * last == {};
      assert |top + last| == |top| + |last|;
      assert (height - 1) * width + width == height * width;
    }
  }

  lemma SubsetCard<T>(a: set<T>, b: set<T>)
    requires a <= b
    ensures |a| <= |b|
  {
    assert b == a + (b - a);
  }

  /** A board as a value: `height` rows of `width` cells. */
  predicate Shaped(g: seq<seq<Cell>>, height: int, width: int) {
    |g| == height && forall i | 0 <= i < |g| :: |g[i]| == width
  }

  /** A value copy of the board, to speak of its state before and after a call. */
  ghost function Snapshot(board: array2<Cell>): (g: seq<seq<Cell>>)
    reads board
    ensures Shaped(g, board.Length0, board.Length1)
    ensures forall i, j | 0 <= i < board.Length0 && 0 <= j < board.Length1 :: g[i][j] == board[i, j]
  {
    seq(board.Length0, i requires 0 <= i < board.Length0 reads board =>
      seq(board.Length1, j requires 0 <= j < board.Length1 reads board => board[i, j]))
  }
}
