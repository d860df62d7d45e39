/** Opening cells (check_ceil) and one turn of play (main). */
module Reveal {
  import opened Cells
  import opened Board
  import opened Count

  /** What main returns: 'Win', 'Lose', or nothing (the game goes on). */
  datatype Outcome = Win | Lose | Continue

  predicate SameShape(board: array2<Cell>, info: array2<int>) {
    board.Length0 == info.Length0 && board.Length1 == info.Length1
  }

  /** Some member of `s` lies in the 3 x 3 block centred on (i, j). */
  predicate Touches(s: set<Coord>, i: int, j: int) {
    || (i - 1, j - 1) in s || (i - 1, j) in s || (i - 1, j + 1) in s
    || (i, j - 1) in s     || (i, j) in s     || (i, j + 1) in s
    || (i + 1, j - 1) in s || (i + 1, j) in s || (i + 1, j + 1) in s
  }

  lemma TouchesAdjacent(s: set<Coord>, z: Coord, i: int, j: int)
    requires z in s && Adjacent(z, i, j)
    ensures Touches(s, i, j)
  {
  }

  lemma TouchesMono(a: set<Coord>, b: set<Coord>, i: int, j: int)
    requires a <= b && Touches(a, i, j)
    ensures Touches(b, i, j)
  {
  }

  /** Visiting more cells can only shrink the number of unvisited cells,
      and visiting one more in-bounds cell shrinks it strictly. */
  lemma Unvisited(all: set<Coord>, z: set<Coord>, z': set<Coord>, p: Coord)
    requires z <= z'
    ensures |all - z'| <= |all - z|
    ensures p in all && p !in z && p in z' ==> |all - z'| < |all - z|
  {
    SubsetCard(all - z', all - z);
    if p in all && p !in z && p in z' {
      SubsetCard(all - z', (all - z) - {p});
    }
  }


  /** Cell (i, j) of board `g` needs no more work from a cascade that started
      with `z0` visited and has visited `zs` so far: it was visited before, or
      it shows its count and, when that count is 0, it has been visited too. */
  ghost predicate Settled(g: seq<seq<Cell>>, info: array2<int>, z0: set<Coord>, zs: set<Coord>, i: int, j: int)
    reads info
    requires Shaped(g, info.Length0, info.Length1) && InBounds(info.Length0, info.Length1, (i, j))
  {
    (i, j) in z0 || (g[i][j] == Num(info[i, j]) && (info[i, j] == 0 ==> (i, j) in zs))
  }

  /** Every non-mine board cell of z's 3 x 3 block that comes before
      (z.0 + y, z.1 + x) in row-major order is settled. With y = 2 this is
      the whole block. */
  ghost predicate ClosedAround(g: seq<seq<Cell>>, info: array2<int>, z0: set<Coord>, zs: set<Coord>,
                               z: Coord, y: int, x: int)
    reads info
    requires Shaped(g, info.Length0, info.Length1)
  {
    forall i, j | Adjacent(z, i, j) && (i - z.0 < y || (i - z.0 == y && j - z.1 < x)) &&
                  0 <= i < info.Length0 && 0 <= j < info.Length1 && info[i, j] >= 0 ::
      Settled(g, info, z0, zs, i, j)
  }

  /** The cells a cascade adds to the visited set are in-bounds zero cells
      that are open. */
  ghost predicate NewOpen(g: seq<seq<Cell>>, info: array2<int>, z0: set<Coord>, zs: set<Coord>)
    reads info
    requires Shaped(g, info.Length0, info.Length1)
  {
    forall p | p in zs && p !in z0 ::
      InBounds(info.Length0, info.Length1, p) && info[p.0, p.1] == 0 && g[p.0][p.1] == Num(0)
  }

  /** Every cell of `g` that differs from `before` shows its count, is not a
      mine, and lies next to `step` or next to a newly visited cell. */
  ghost predicate ChangedOk(g: seq<seq<Cell>>, info: array2<int>, before: seq<seq<Cell>>,
                            z0: set<Coord>, zs: set<Coord>, step: Coord)
    reads info
    requires Shaped(g, info.Length0, info.Length1) && Shaped(before, info.Length0, info.Length1)
  {
    forall i, j | 0 <= i < info.Length0 && 0 <= j < info.Length1 && g[i][j] != before[i][j] ::
      g[i][j] == Num(info[i, j]) && info[i, j] != -1 && Touches(zs - z0 + {step}, i, j)
  }

  /** Every cell that was already visited, other than `step` itself, is as
      it was in `before`: the cascade never enters a cell listed in `z0`. */
  ghost predicate KeptVisited(g: seq<seq<Cell>>, info: array2<int>, before: seq<seq<Cell>>,
                              z0: set<Coord>, step: Coord)
    reads info
    requires Shaped(g, info.Length0, info.Length1) && Shaped(before, info.Length0, info.Length1)
  {
    forall i, j | 0 <= i < info.Length0 && 0 <= j < info.Length1 && (i, j) in z0 && (i, j) != step ::
      g[i][j] == before[i][j]
  }

  /** What check_ceil on `step` achieves, taking board `before` with visited
      set `z0` to board `g` with visited set `zs`; `lost` is its result. */
  ghost predicate Opened(g: seq<seq<Cell>>, info: array2<int>, before: seq<seq<Cell>>,
                         z0: set<Coord>, zs: set<Coord>, step: Coord, lost: bool)
    reads info
    requires Shaped(g, info.Length0, info.Length1) && Shaped(before, info.Length0, info.Length1)
    requires InBounds(info.Length0, info.Length1, step)
  {
    // a mine is reported; any other cell shows its count
    && (lost <==> info[step.0, step.1] == -1)
    && (!lost ==> g[step.0][step.1] == Num(info[step.0, step.1]))
    // the visited set only grows, and only by open in-bounds zero cells
    && z0 <= zs
    && NewOpen(g, info, z0, zs)
    // a count other than 0 (a mine included): no other cell changes and
    // nothing is visited
    && (info[step.0, step.1] != 0 ==>
          && zs == z0
          && forall i, j | 0 <= i < info.Length0 && 0 <= j < info.Length1 && (i, j) != step ::
               g[i][j] == before[i][j])
    // every changed cell shows its count, is not a mine, and lies next to
    // `step` or to a newly visited cell
    && ChangedOk(g, info, before, z0, zs, step)
    // a cell visited before the call, other than `step`, is not written
    && KeptVisited(g, info, before, z0, step)
    // a zero is visited, and around it and around every cell the cascade
    // visits, each non-mine neighbour is settled
    && (info[step.0, step.1] == 0 ==>
          && step in zs
          && forall z | z in zs - z0 + {step} :: ClosedAround(g, info, z0, zs, z, 2, -1))
  }

  /** What holds while the cascade from the zero cell `step`, which started
      on board `b0` with visited set `z0`, scans its block and has reached
      (step.0 + y, step.1 + x). */
  ghost predicate CascadeInv(g: seq<seq<Cell>>, info: array2<int>, b0: seq<seq<Cell>>,
                             z0: set<Coord>, zs: set<Coord>, step: Coord, y: int, x: int)
    reads info
    requires Shaped(g, info.Length0, info.Length1) && Shaped(b0, info.Length0, info.Length1)
    requires InBounds(info.Length0, info.Length1, step)
  {
    && z0 + {step} <= zs
    && info[step.0, step.1] == 0 && g[step.0][step.1] == Num(0)
    && NewOpen(g, info, z0, zs)
    && ChangedOk(g, info, b0, z0, zs, step)
    && KeptVisited(g, info, b0, z0, step)
    && (forall z | z in zs && z !in z0 && z != step :: ClosedAround(g, info, z0, zs, z, 2, -1))
    && ClosedAround(g, info, z0, zs, step, y, x)
  }

  /** The cascade invariant holds once `step` is written and visited. */
  lemma Started(g: seq<seq<Cell>>, info: array2<int>, b0: seq<seq<Cell>>, z0: set<Coord>, zs: set<Coord>,
                step: Coord)
    requires Shaped(g, info.Length0, info.Length1) && Shaped(b0, info.Length0, info.Length1)
    requires InBounds(info.Length0, info.Length1, step)
    requires zs == z0 + {step} && info[step.0, step.1] == 0 && g[step.0][step.1] == Num(0)
    requires forall i, j | 0 <= i < info.Length0 && 0 <= j < info.Length1 && (i, j) != step ::
               g[i][j] == b0[i][j]
    ensures CascadeInv(g, info, b0, z0, zs, step, -1, -1)
  {
    TouchesAdjacent(zs - z0 + {step}, step, step.0, step.1);
  }

  /** Skipping the scan position (y, x): the cell is off the board, a mine,
      or already visited. */
  lemma SkipVisit(g: seq<seq<Cell>>, info: array2<int>, b0: seq<seq<Cell>>, z0: set<Coord>, zs: set<Coord>,
                  step: Coord, y: int, x: int, n: Coord)
    requires Shaped(g, info.Length0, info.Length1) && Shaped(b0, info.Length0, info.Length1)
    requires InBounds(info.Length0, info.Length1, step)
    requires CascadeInv(g, info, b0, z0, zs, step, y, x)
    requires n == (step.0 + y, step.1 + x)
    requires InBounds(info.Length0, info.Length1, n) ==> info[n.0, n.1] < 0 || n in zs
    ensures CascadeInv(g, info, b0, z0, zs, step, y, x + 1)
  {
  }

  /** Finishing the scan of one row of the block, or skipping a row that
      lies off the board. */
  lemma NextRow(g: seq<seq<Cell>>, info: array2<int>, b0: seq<seq<Cell>>, z0: set<Coord>, zs: set<Coord>,
                step: Coord, y: int)
    requires Shaped(g, info.Length0, info.Length1) && Shaped(b0, info.Length0, info.Length1)
    requires InBounds(info.Length0, info.Length1, step)
    requires CascadeInv(g, info, b0, z0, zs, step, y, 2) ||
             (CascadeInv(g, info, b0, z0, zs, step, y, -1) && !(0 <= step.0 + y < info.Length0))
    ensures CascadeInv(g, info, b0, z0, zs, step, y + 1, -1)
  {
  }

  /** The finished scan gives the zero-cell part of `Opened`. */
  lemma Finished(g: seq<seq<Cell>>, info: array2<int>, b0: seq<seq<Cell>>, z0: set<Coord>, zs: set<Coord>,
                 step: Coord)
    requires Shaped(g, info.Length0, info.Length1) && Shaped(b0, info.Length0, info.Length1)
    requires InBounds(info.Length0, info.Length1, step) && info[step.0, step.1] == 0
    requires CascadeInv(g, info, b0, z0, zs, step, 2, -1)
    ensures Opened(g, info, b0, z0, zs, step, false)
  {
  }

  /** A block settled before a call that only opens non-mine cells, and
      only grows the visited set, stays settled. */
  lemma ClosedAroundLater(g0: seq<seq<Cell>>, g: seq<seq<Cell>>, info: array2<int>,
                          z0: set<Coord>, zb: set<Coord>, zs: set<Coord>, z: Coord)
    requires Shaped(g0, info.Length0, info.Length1) && Shaped(g, info.Length0, info.Length1)
    requires z0 <= zb <= zs
    requires ClosedAround(g0, info, z0, zb, z, 2, -1)
    requires forall i, j | 0 <= i < info.Length0 && 0 <= j < info.Length1 && g[i][j] != g0[i][j] ::
               g[i][j] == Num(info[i, j])
    ensures ClosedAround(g, info, z0, zs, z, 2, -1)
  {
  }

  /** A block settled relative to the visited set `zb` is settled relative to
      the earlier `z0` too, as the cells visited in between are open zeros. */
  lemma ClosedAroundWider(g: seq<seq<Cell>>, info: array2<int>, z0: set<Coord>, zb: set<Coord>, zs: set<Coord>,
                          z: Coord)
    requires Shaped(g, info.Length0, info.Length1)
    requires z0 <= zb <= zs
    requires ClosedAround(g, info, zb, zs, z, 2, -1)
    requires NewOpen(g, info, z0, zs)
    ensures ClosedAround(g, info, z0, zs, z, 2, -1)
  {
  }

  /** The state after the recursive call on the neighbour `n` at scan
      position (y, x): before the call, board `g0` and visited set `zb` met the
      cascade invariant of `step`, and the call took them to `g` and `zs`. */
  ghost predicate VisitedNeighbour(g0: seq<seq<Cell>>, g: seq<seq<Cell>>, info: array2<int>, b0: seq<seq<Cell>>,
                                   z0: set<Coord>, zb: set<Coord>, zs: set<Coord>, step: Coord, y: int, x: int, n: Coord, lost: bool)
    reads info
  {
    && Shaped(g0, info.Length0, info.Length1) && Shaped(g, info.Length0, info.Length1)
    && Shaped(b0, info.Length0, info.Length1)
    && InBounds(info.Length0, info.Length1, step)
    && -1 <= y <= 1 && -1 <= x <= 1 && n == (step.0 + y, step.1 + x)
    && CascadeInv(g0, info, b0, z0, zb, step, y, x)
    && InBounds(info.Length0, info.Length1, n) && info[n.0, n.1] >= 0 && n !in zb
    && Opened(g, info, g0, zb, zs, n, lost)
  }

  /** After the recursive call on the neighbour `n` at scan position (y, x),
      which took board `g0` and visited set `zb` to `g` and `zs`. */
  lemma AfterVisit(g0: seq<seq<Cell>>, g: seq<seq<Cell>>, info: array2<int>, b0: seq<seq<Cell>>,
                   z0: set<Coord>, zb: set<Coord>, zs: set<Coord>, step: Coord, y: int, x: int, n: Coord, lost: bool)
    requires VisitedNeighbour(g0, g, info, b0, z0, zb, zs, step, y, x, n, lost)
    ensures CascadeInv(g, info, b0, z0, zs, step, y, x + 1)
  {
    ChangedAfterVisit(g0, g, info, b0, z0, zb, zs, step, y, x, n, lost);
    ClosedAfterVisit(g0, g, info, b0, z0, zb, zs, step, y, x, n, lost);
    StepAfterVisit(g0, g, info, b0, z0, zb, zs, step, y, x, n, lost);
  }

  /** The changed-cell, visited-cell, kept-cell and start-cell parts of AfterVisit. */
  lemma ChangedAfterVisit(g0: seq<seq<Cell>>, g: seq<seq<Cell>>, info: array2<int>, b0: seq<seq<Cell>>,
                   z0: set<Coord>, zb: set<Coord>, zs: set<Coord>, step: Coord, y: int, x: int, n: Coord, lost: bool)
    requires VisitedNeighbour(g0, g, info, b0, z0, zb, zs, step, y, x, n, lost)
    ensures ChangedOk(g, info, b0, z0, zs, step)
    ensures g[step.0][step.1] == Num(0) && NewOpen(g, info, z0, zs)
    ensures KeptVisited(g, info, b0, z0, step)
  {
    var h, w := info.Length0, info.Length1;
    assert g[step.0][step.1] == Num(0) by {
      if g[step.0][step.1] != g0[step.0][step.1] {
        assert g[step.0][step.1] == Num(info[step.0, step.1]);
      }
    }
    forall p | p in zs && p !in z0
      ensures InBounds(h, w, p) && info[p.0, p.1] == 0 && g[p.0][p.1] == Num(0)
    {
      if p in zb && g[p.0][p.1] != g0[p.0][p.1] {
        assert g[p.0][p.1] == Num(info[p.0, p.1]);
      }
    }
    var region := zs - z0 + {step};
    forall i, j | 0 <= i < h && 0 <= j < w && g[i][j] != b0[i][j]
      ensures g[i][j] == Num(info[i, j]) && info[i, j] != -1 && Touches(region, i, j)
    {
      if g[i][j] != g0[i][j] {
        if info[n.0, n.1] == 0 {
          TouchesMono(zs - zb + {n}, region, i, j);
        } else {
          assert (i, j) == n;
          TouchesAdjacent(region, step, i, j);
        }
      } else {
        TouchesMono(zb - z0 + {step}, region, i, j);
      }
    }
  }

  /** The closure part of AfterVisit for the cells visited before `step`'s scan. */
  lemma ClosedAfterVisit(g0: seq<seq<Cell>>, g: seq<seq<Cell>>, info: array2<int>, b0: seq<seq<Cell>>,
                   z0: set<Coord>, zb: set<Coord>, zs: set<Coord>, step: Coord, y: int, x: int, n: Coord, lost: bool)
    requires VisitedNeighbour(g0, g, info, b0, z0, zb, zs, step, y, x, n, lost)
    ensures forall z | z in zs && z !in z0 && z != step :: ClosedAround(g, info, z0, zs, z, 2, -1)
  {
    forall z | z in zs && z !in z0 && z != step
      ensures ClosedAround(g, info, z0, zs, z, 2, -1)
    {
      if z in zb {
        assert ClosedAround(g0, info, z0, zb, z, 2, -1);
        ClosedAroundLater(g0, g, info, z0, zb, zs, z);
      } else {
        assert z in zs - zb + {n};
        assert ClosedAround(g, info, zb, zs, z, 2, -1);
        ClosedAroundWider(g, info, z0, zb, zs, z);
      }
    }
  }

  /** The closure part of AfterVisit for `step`'s own block, one position further. */
  lemma StepAfterVisit(g0: seq<seq<Cell>>, g: seq<seq<Cell>>, info: array2<int>, b0: seq<seq<Cell>>,
                   z0: set<Coord>, zb: set<Coord>, zs: set<Coord>, step: Coord, y: int, x: int, n: Coord, lost: bool)
    requires VisitedNeighbour(g0, g, info, b0, z0, zb, zs, step, y, x, n, lost)
    ensures ClosedAround(g, info, z0, zs, step, y, x + 1)
  {
  }

  /** Opening never hides a cell: the unrevealed cells after check_ceil are
      among those before it, and opening a hidden or flagged non-mine cell
      removes it from them. */
  lemma OpenedCount(g: seq<seq<Cell>>, info: array2<int>, before: seq<seq<Cell>>,
                    z0: set<Coord>, zs: set<Coord>, step: Coord, lost: bool)
    requires Shaped(g, info.Length0, info.Length1) && Shaped(before, info.Length0, info.Length1)
    requires InBounds(info.Length0, info.Length1, step)
    requires Opened(g, info, before, z0, zs, step, lost)
    ensures UnrevealedCells(g) <= UnrevealedCells(before)
    ensures !lost && Unrevealed(before[step.0][step.1]) ==> |UnrevealedCells(g)| < |UnrevealedCells(before)|
  {
    forall p | p in UnrevealedCells(g) ensures p in UnrevealedCells(before) {
      assert before[p.0][p.1] == g[p.0][p.1];
    }
    if !lost && Unrevealed(before[step.0][step.1]) {
      assert step in UnrevealedCells(before) - UnrevealedCells(g);
      SubsetCard(UnrevealedCells(g), UnrevealedCells(before) - {step});
    }
  }

  /** The module-level state of the engine: the list `zeros` of zero cells
      already opened by a cascade. Like the source's global it is shared by
      every board and never emptied. */
  class Sweeper {
    var zeros: set<Coord>

    constructor ()
      ensures zeros == {}
    {
      zeros := {};
    }

    /** check_ceil: open `step`. A mine reports the loss and writes nothing;
        any other count is written to the cell; a zero is in addition
        recorded in `zeros`, and every in-bounds non-mine neighbour not yet in
        `zeros` is opened in turn. */
    method CheckCeil(board: array2<Cell>, info: array2<int>, step: Coord) returns (lost: bool)
      requires SameShape(board, info)
      requires InBounds(board.Length0, board.Length1, step)
      modifies this, board
      decreases |AllCells(board.Length0, board.Length1) - zeros|, if step in zeros then 3 else 0
      ensures Opened(Snapshot(board), info, old(Snapshot(board)), old(zeros), zeros, step, lost)
    {
      var r, c := step.0, step.1;
      var h, w := board.Length0, board.Length1;
      ghost var b0 := Snapshot(board);
      if info[r, c] == 0 {
        board[r, c] := Num(0);
        zeros := zeros + {step};
        Started(Snapshot(board), info, b0, old(zeros), zeros, step);
        for y := -1 to 2
          invariant CascadeInv(Snapshot(board), info, b0, old(zeros), zeros, step, y, -1)
        {
          if 0 <= r + y < h {
            Unvisited(AllCells(h, w), old(zeros), zeros, step);
            ScanRow(board, info, b0, old(zeros), step, y);
          }
          NextRow(Snapshot(board), info, b0, old(zeros), zeros, step, y);
        }
        Finished(Snapshot(board), info, b0, old(zeros), zeros, step);
        lost := false;
      } else if info[r, c] == -1 {
        lost := true;
      } else {
        board[r, c] := Num(info[r, c]);
        lost := false;
      }
    }

    /** main: the win check comes first and uses the board as it is before
        the move; then a true `action` opens the clamped coordinate and
        reports a loss on a mine, and a false one toggles its flag. */
    method PlayTurn(board: array2<Cell>, mines: seq<Coord>, info: array2<int>, action: bool, coord: Coord)
      returns (outcome: Outcome)
      requires SameShape(board, info)
      requires |UnrevealedCells(Snapshot(board))| != |mines| ==>
               InBounds(board.Length0, board.Length1, GetStep(coord.0, coord.1))
      modifies this, board
      ensures outcome == Win <==> |UnrevealedCells(old(Snapshot(board)))| == |mines|
      ensures outcome == Win ==> Snapshot(board) == old(Snapshot(board)) && zeros == old(zeros)
      ensures outcome != Win && action ==>
        Opened(Snapshot(board), info, old(Snapshot(board)), old(zeros), zeros, GetStep(coord.0, coord.1),
               outcome == Lose)
      ensures outcome != Win && !action ==>
        var step := GetStep(coord.0, coord.1);
        && outcome == Continue
        && zeros == old(zeros)
        && board[step.0, step.1] == Toggled(old(board[step.0, step.1]), step)
        && forall i, j | 0 <= i < board.Length0 && 0 <= j < board.Length1 && (i, j) != step ::
             board[i, j] == old(board[i, j])
    {
      var left := MinesLeft(board);
      if left == |mines| {
        return Win;
      }
      var step := GetStep(coord.0, coord.1);
      outcome := Continue;
      if action {
        var lost := CheckCeil(board, info, step);
        if lost {
          outcome := Lose;
        }
      } else {
        Flag(board, step);
      }
    }

    /** The inner loop of check_ceil's cascade: row `y` of the 3 x 3 block
        around the zero cell `step`. */
    method ScanRow(board: array2<Cell>, info: array2<int>, ghost b0: seq<seq<Cell>>, ghost z0: set<Coord>,
                   step: Coord, y: int)
      requires SameShape(board, info) && Shaped(b0, board.Length0, board.Length1)
      requires InBounds(board.Length0, board.Length1, step)
      requires -1 <= y <= 1 && 0 <= step.0 + y < board.Length0
      requires CascadeInv(Snapshot(board), info, b0, z0, zeros, step, y, -1)
      modifies this, board
      decreases |AllCells(board.Length0, board.Length1) - zeros|, 2
      ensures old(zeros) <= zeros
      ensures CascadeInv(Snapshot(board), info, b0, z0, zeros, step, y, 2)
    {
      for x := -1 to 2
        invariant old(zeros) <= zeros
        invariant CascadeInv(Snapshot(board), info, b0, z0, zeros, step, y, x)
      {
        Unvisited(AllCells(board.Length0, board.Length1), old(zeros), zeros, step);
        VisitCell(board, info, b0, z0, step, y, x);
      }
    }

    /** The body of the inner loop: open the cell at scan position (y, x)
        if it is on the board, not a mine and not yet in `zeros`. */
    method VisitCell(board: array2<Cell>, info: array2<int>, ghost b0: seq<seq<Cell>>, ghost z0: set<Coord>,
                     step: Coord, y: int, x: int)
      requires SameShape(board, info) && Shaped(b0, board.Length0, board.Length1)
      requires InBounds(board.Length0, board.Length1, step)
      requires -1 <= y <= 1 && -1 <= x <= 1 && 0 <= step.0 + y < board.Length0
      requires CascadeInv(Snapshot(board), info, b0, z0, zeros, step, y, x)
      modifies this, board
      decreases |AllCells(board.Length0, board.Length1) - zeros|, 1
      ensures old(zeros) <= zeros
      ensures CascadeInv(Snapshot(board), info, b0, z0, zeros, step, y, x + 1)
    {
      var n := (step.0 + y, step.1 + x);
      if 0 <= step.1 + x < board.Length1 && info[n.0, n.1] >= 0 && n !in zeros {
        ghost var g0 := Snapshot(board);
        var ignored := CheckCeil(board, info, n);
        AfterVisit(g0, Snapshot(board), info, b0, z0, old(zeros), zeros, step, y, x, n, ignored);
      } else {
        SkipVisit(Snapshot(board), info, b0, z0, zeros, step, y, x, n);
      }
    }
  }
}
