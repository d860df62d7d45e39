/** Mine placement (set_mines). The random draws of `randint` are an
    input: `draws` lists, in order, the coordinates the generator produces. */
module Mines {
  import opened Cells

  /** How set_mines ends: with a list of mines; with the ValueError that
      randint(0, -1) raises when a dimension is not positive; or, in the
      model only, because the supplied draws ran out before enough distinct
      coordinates were seen. */
  datatype Placement = Placed(mines: seq<Coord>) | EmptyRange | DrawsExhausted

  predicate Distinct(s: seq<Coord>) {
    forall i, j | 0 <= i < j < |s| :: s[i] != s[j]
  }

  function Elements(s: seq<Coord>): set<Coord> {
    set x | x in s
  }

  /** A list without repeats has as many elements as entries. */
  lemma {:induction false} DistinctElements(s: seq<Coord>)
    requires Distinct(s)
    ensures |Elements(s)| == |s|
  {
    if s != [] {
      var front := s[..|s| - 1];
      assert s == front + [s[|s| - 1]];
      assert Elements(s) == Elements(front) + {s[|s| - 1]};
      assert s[|s| - 1] !in Elements(front);
      DistinctElements(front);
    }
  }

  /** The set after the loop body has run once for each of the first `n`
      draws: add the draw, then discard the first-step coordinate. */
  function Accumulate(draws: seq<Coord>, n: nat, step: Coord): (s: set<Coord>)
    requires n <= |draws|
    ensures step !in s
    ensures s <= Elements(draws[..n])
    ensures |s| <= n
  {
    if n == 0 then {}
    else
      var before := Accumulate(draws, n - 1, step);
      assert Elements(draws[..n]) == Elements(draws[..n - 1]) + {draws[n - 1]};
      assert |before + {draws[n - 1]}| <= |before| + 1;
      (before + {draws[n - 1]}) - {step}
  }

  /** A placement drawn from in-bounds draws avoids `step`, so it can never
      hold more than height * width coordinates, one fewer when `step` is
      on the board: set_mines can only return for such a mine count. */
  lemma AccumulateBound(height: nat, width: nat, draws: seq<Coord>, n: nat, step: Coord)
    requires n <= |draws|
    requires forall d | d in draws :: InBounds(height, width, d)
    ensures Accumulate(draws, n, step) <= AllCells(height, width) - {step}
    ensures |Accumulate(draws, n, step)| <= height * width - (if InBounds(height, width, step) then 1 else 0)
  {
    var acc := Accumulate(draws, n, step);
    forall p | p in acc ensures p in AllCells(height, width) - {step} {
      assert p in Elements(draws[..n]);
      assert p in draws;
      assert InBounds(height, width, p);
    }
    OtherCellsSize(height, width, step);
    SubsetCard(acc, AllCells(height, width) - {step});
  }

  lemma OtherCellsSize(height: nat, width: nat, step: Coord)
    ensures |AllCells(height, width) - {step}| == height * width - (if InBounds(height, width, step) then 1 else 0)
  {
    AllCellsSize(height, width);
    if InBounds(height, width, step) {
      assert step in AllCells(height, width);
    } else {
      assert AllCells(height, width) - {step} == AllCells(height, width);
    }
  }

  /** A count that the accumulated set reaches fits on the board. */
  lemma PlacedFits(height: int, width: int, numMines: int, draws: seq<Coord>, n: nat, step: Coord)
    requires n <= |draws|
    requires forall d | d in draws :: InBounds(height, width, d)
    requires numMines > 0 ==> height > 0 && width > 0 && |Accumulate(draws, n, step)| == numMines
    ensures numMines <= Nat(height) * Nat(width) - (if InBounds(height, width, step) then 1 else 0)
  {
    if numMines > 0 {
      AccumulateBound(height, width, draws, n, step);
    } else if InBounds(height, width, step) {
      assert Nat(height) * Nat(width) >= 1;
    } else {
      assert Nat(height) * Nat(width) >= 0;
    }
  }

  /** list(mines): the elements of a set, each exactly once, in some order. */
  method ListOf(s: set<Coord>) returns (list: seq<Coord>)
    ensures Elements(list) == s
    ensures Distinct(list)
    ensures |list| == |s|
  {
    list := [];
    var rest := s;
    while rest != {}
      invariant forall x :: x in s <==> x in list || x in rest
      invariant forall i | 0 <= i < |list| :: list[i] !in rest
      invariant Distinct(list)
      invariant |list| + |rest| == |s|
      decreases |rest|
    {
      var x :| x in rest;
      list := list + [x];
      rest := rest - {x};
    }
  }

  /** set_mines: draw until `numMines` distinct coordinates other than
      `step` have been collected. `used` is the number of draws consumed. */
  method SetMines(height: int, width: int, numMines: int, step: Coord, draws: seq<Coord>)
    returns (result: Placement, used: nat)
    requires forall d | d in draws :: InBounds(height, width, d)
    ensures used <= |draws|
    ensures result.EmptyRange? <==> numMines > 0 && (height <= 0 || width <= 0)
    ensures result.Placed? ==>
      && Elements(result.mines) == Accumulate(draws, used, step)
      && Distinct(result.mines)
      && |result.mines| == Nat(numMines)
      && step !in result.mines
      && (forall m | m in result.mines :: InBounds(height, width, m))
    ensures result.Placed? ==> forall k | 0 <= k < used :: |Accumulate(draws, k, step)| < numMines
    ensures result.Placed? ==>
      numMines <= Nat(height) * Nat(width) - (if InBounds(height, width, step) then 1 else 0)
    ensures result.DrawsExhausted? ==>
      used == |draws| && forall k | 0 <= k <= |draws| :: |Accumulate(draws, k, step)| < numMines
  {
    used := 0;
    if numMines > 0 && (height <= 0 || width <= 0) {
      return EmptyRange, 0;
    }
    var mines: set<Coord> := {};
    while |mines| < numMines
      invariant used <= |draws|
      invariant mines == Accumulate(draws, used, step)
      invariant forall k | 0 <= k < used :: |Accumulate(draws, k, step)| < numMines
      invariant |mines| <= Nat(numMines)
      decreases |draws| - used
    {
      if used == |draws| {
        forall k | 0 <= k <= |draws| ensures |Accumulate(draws, k, step)| < numMines {
          if k == used {
            assert |Accumulate(draws, used, step)| < numMines;
          }
        }
        return DrawsExhausted, used;
      }
      ghost var shorter := used;
      mines := (mines + {draws[used]}) - {step};
      used := used + 1;
      forall k | 0 <= k < used ensures |Accumulate(draws, k, step)| < numMines {
        if k == shorter {
          assert |Accumulate(draws, shorter, step)| < numMines;
        }
      }
    }
    assert |mines| == Nat(numMines);
    PlacedFits(height, width, numMines, draws, used, step);
    var list := ListOf(mines);
    forall m | m in list ensures InBounds(height, width, m) {
      assert m in Elements(draws[..used]);
      assert m in draws[..used];
    }
    result := Placed(list);
  }
}
