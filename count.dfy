/** The win check of main: the number of cells still hidden or flagged. */
module Count {
  import opened Cells
  import opened Board
  import opened Mines

  /** The cells of board `g` that are still hidden or flagged. */
  function UnrevealedCells(g: seq<seq<Cell>>): set<Coord> {
    set i, j | 0 <= i < |g| && 0 <= j < |g[i]| && Unrevealed(g[i][j]) :: (i, j)
  }

  /** The unrevealed cells that a row-by-row scan meets before (r, c). */
  function Before(g: seq<seq<Cell>>, r: int, c: int): set<Coord> {
    set i, j | 0 <= i < |g| && 0 <= j < |g[i]| && (i < r || (i == r && j < c)) && Unrevealed(g[i][j]) :: (i, j)
  }

  lemma BeforeNext(g: seq<seq<Cell>>, r: int, c: int)
    requires 0 <= r < |g| && 0 <= c < |g[r]|
    ensures |Before(g, r, c + 1)| == |Before(g, r, c)| + (if Unrevealed(g[r][c]) then 1 else 0)
  {
    var extra: set<Coord> := if Unrevealed(g[r][c]) then {(r, c)} else {};
    assert Before(g, r, c + 1) == Before(g, r, c) + extra;
    assert (r, c) !in Before(g, r, c);
  }

  lemma BeforeRowEnd(g: seq<seq<Cell>>, r: int)
    requires 0 <= r < |g|
    ensures Before(g, r, |g[r]|) == Before(g, r + 1, 0)
  {
  }

  /** The counting loop of main: every cell whose value is a coordinate
      tuple or a flag is counted. */
  method MinesLeft(board: array2<Cell>) returns (n: nat)
    ensures n == |UnrevealedCells(Snapshot(board))|
  {
    ghost var g := Snapshot(board);
    n := 0;
    for r := 0 to board.Length0
      invariant n == |Before(g, r, 0)|
    {
      for c := 0 to board.Length1
        invariant n == |Before(g, r, c)|
      {
        BeforeNext(g, r, c);
        if board[r, c].Hidden? || board[r, c].Flagged? {
          n := n + 1;
        }
      }
      BeforeRowEnd(g, r);
    }
    assert Before(g, board.Length0, 0) == UnrevealedCells(g);
  }

  /** At most every cell of the board is unrevealed. */
  lemma UnrevealedBound(g: seq<seq<Cell>>, height: nat, width: nat)
    requires Shaped(g, height, width)
    ensures UnrevealedCells(g) <= AllCells(height, width)
    ensures |UnrevealedCells(g)| <= height * width
  {
    AllCellsSize(height, width);
    SubsetCard(UnrevealedCells(g), AllCells(height, width));
  }

  /** On a board fresh from generate_board every cell counts. */
  lemma FreshBoardCount(g: seq<seq<Cell>>, height: nat, width: nat)
    requires Shaped(g, height, width)
    requires forall i, j | 0 <= i < height && 0 <= j < width :: g[i][j] == Hidden(i, j)
    ensures |UnrevealedCells(g)| == height * width
  {
    assert UnrevealedCells(g) == AllCells(height, width);
    AllCellsSize(height, width);
  }

  /** When exactly the mine cells are unrevealed, the count equals the
      number of mines that set_mines placed, so main reports the win. */
  lemma ClearedCount(g: seq<seq<Cell>>, height: nat, width: nat, mines: seq<Coord>)
    requires Shaped(g, height, width) && Distinct(mines)
    requires forall m | m in mines :: InBounds(height, width, m)
    requires forall i, j | 0 <= i < height && 0 <= j < width :: Unrevealed(g[i][j]) <==> (i, j) in mines
    ensures |UnrevealedCells(g)| == |mines|
  {
    assert UnrevealedCells(g) == Elements(mines);
    DistinctElements(mines);
  }

  /** Flagging leaves the cell at `step` unrevealed, hiding it again if it
      was open, and changes no other cell's status. */
  lemma FlagCount(g0: seq<seq<Cell>>, g: seq<seq<Cell>>, height: nat, width: nat, step: Coord)
    requires Shaped(g0, height, width) && Shaped(g, height, width) && InBounds(height, width, step)
    requires g[step.0][step.1] == Toggled(g0[step.0][step.1], step)
    requires forall i, j | 0 <= i < height && 0 <= j < width && (i, j) != step :: g[i][j] == g0[i][j]
    ensures UnrevealedCells(g) == UnrevealedCells(g0) + {step}
  {
  }
}
