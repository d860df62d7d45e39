/** The count grid (get_info_board): -1 on every mine, elsewhere the number
    of mines in the surrounding 3 x 3 block. */
module Info {
  import opened Cells
  import opened Mines

  /** Number of entries of `mines` (counted with repetition, as the source's
      increment loop does) that lie in the 3 x 3 block around (r, c). */
  function NearCount(mines: seq<Coord>, r: int, c: int): (n: nat)
    ensures n <= |mines|
  {
    if mines == [] then 0
    else NearCount(mines[..|mines| - 1], r, c) + (if Adjacent(mines[|mines| - 1], r, c) then 1 else 0)
  }

  /** The cell-by-cell meaning of the count grid. */
  function InfoValue(mines: seq<Coord>, r: int, c: int): (v: int)
    ensures v == -1 <==> (r, c) in mines
    ensures v >= -1 && v <= |mines|
  {
    if (r, c) in mines then -1 else NearCount(mines, r, c)
  }

  /** get_info_board: mark the mines, then, mine by mine, add one to every
      non-mine cell of its 3 x 3 block that lies on the board. */
  method GetInfoBoard(height: int, width: int, mines: seq<Coord>) returns (info: array2<int>)
    ensures info.Length0 == Nat(height) && info.Length1 == Nat(width)
    ensures forall r, c | 0 <= r < info.Length0 && 0 <= c < info.Length1 ::
      info[r, c] == InfoValue(mines, r, c)
  {
    var h, w := Nat(height), Nat(width);
    info := new int[h, w]((r, c) => if (r, c) in mines then -1 else 0);
    for k := 0 to |mines|
      invariant forall r, c | 0 <= r < h && 0 <= c < w ::
        info[r, c] == if (r, c) in mines then -1 else NearCount(mines[..k], r, c)
    {
      var m := mines[k];
      assert mines[..k + 1][..k] == mines[..k];
      for y := -1 to 2
        invariant forall r, c | 0 <= r < h && 0 <= c < w ::
          info[r, c] == if (r, c) in mines then -1
                        else NearCount(mines[..k], r, c) + (if Adjacent(m, r, c) && r - m.0 < y then 1 else 0)
      {
        if 0 <= m.0 + y < h {
          for x := -1 to 2
            invariant forall r, c | 0 <= r < h && 0 <= c < w ::
              info[r, c] == if (r, c) in mines then -1
                            else NearCount(mines[..k], r, c) +
                                 (if Adjacent(m, r, c) && (r - m.0 < y || (r - m.0 == y && c - m.1 < x)) then 1 else 0)
          {
            if 0 <= m.1 + x < w {
              if info[m.0 + y, m.1 + x] >= 0 {
                info[m.0 + y, m.1 + x] := info[m.0 + y, m.1 + x] + 1;
              }
            }
          }
        }
      }
    }
    assert mines[..|mines|] == mines;
  }

  /** Counting over a concatenation adds the counts of the parts. */
  lemma {:induction false} NearCountAppend(a: seq<Coord>, b: seq<Coord>, r: int, c: int)
    ensures NearCount(a + b, r, c) == NearCount(a, r, c) + NearCount(b, r, c)
    decreases |b|
  {
    if b == [] {
      assert a + b == a;
    } else {
      var b' := b[..|b| - 1];
      assert (a + b)[..|a + b| - 1] == a + b';
      assert (a + b)[|a + b| - 1] == b[|b| - 1];
      NearCountAppend(a, b', r, c);
    }
  }

  /** The count depends only on which mines there are (with repetition),
      not on the order of the list. */
  lemma {:induction false} NearCountPermutation(a: seq<Coord>, b: seq<Coord>, r: int, c: int)
    requires multiset(a) == multiset(b)
    ensures NearCount(a, r, c) == NearCount(b, r, c)
    decreases |a|
  {
    if a != [] {
      var x := a[|a| - 1];
      var a' := a[..|a| - 1];
      assert a == a' + [x];
      assert x in multiset(b);
      var i :| 0 <= i < |b| && b[i] == x;
      var b' := b[..i] + b[i + 1..];
      assert b == b[..i] + [x] + b[i + 1..];
      assert multiset(a') == multiset(a) - multiset{x};
      assert multiset(b') == multiset(b) - multiset{x} by {
        assert multiset(b) == multiset(b[..i]) + multiset{x} + multiset(b[i + 1..]);
      }
      NearCountPermutation(a', b', r, c);
      NearCountAppend(b[..i] + [x], b[i + 1..], r, c);
      NearCountAppend(b[..i], [x], r, c);
      NearCountAppend(b[..i], b[i + 1..], r, c);
      assert NearCount([x], r, c) == (if Adjacent(x, r, c) then 1 else 0) by {
        assert [x][..0] == [];
      }
    }
  }

  /** Reordering the mine list leaves the whole count grid unchanged. */
  lemma InfoPermutation(a: seq<Coord>, b: seq<Coord>, r: int, c: int)
    requires multiset(a) == multiset(b)
    ensures InfoValue(a, r, c) == InfoValue(b, r, c)
  {
    assert (r, c) in a <==> (r, c) in multiset(a);
    NearCountPermutation(a, b, r, c);
  }

  function NearSet(mines: seq<Coord>, r: int, c: int): set<Coord> {
    set m | m in mines && Adjacent(m, r, c)
  }

  /** For a list without repeats the count is the number of distinct
      neighbouring mines. */
  lemma {:induction false} NearCountDistinct(mines: seq<Coord>, r: int, c: int)
    requires Distinct(mines)
    ensures NearCount(mines, r, c) == |NearSet(mines, r, c)|
    decreases |mines|
  {
    if mines != [] {
      var front, x := mines[..|mines| - 1], mines[|mines| - 1];
      assert mines == front + [x];
      NearCountDistinct(front, r, c);
      assert x !in front;
      if Adjacent(x, r, c) {
        assert NearSet(mines, r, c) == NearSet(front, r, c) + {x};
      } else {
        assert NearSet(mines, r, c) == NearSet(front, r, c);
      }
    }
  }

  /** The eight cells around (r, c). */
  function Ring(r: int, c: int): set<Coord> {
    {(r - 1, c - 1), (r - 1, c), (r - 1, c + 1),
     (r, c - 1),                 (r, c + 1),
     (r + 1, c - 1), (r + 1, c), (r + 1, c + 1)}
  }

  /** With distinct mines (as set_mines produces) every non-mine cell counts
      between 0 and 8, so the grid holds only values in -1..8. */
  lemma InfoRange(mines: seq<Coord>, r: int, c: int)
    requires Distinct(mines)
    ensures -1 <= InfoValue(mines, r, c) <= 8
  {
    if (r, c) !in mines {
      NearCountDistinct(mines, r, c);
      assert NearSet(mines, r, c) <= Ring(r, c);
      SubsetCard(NearSet(mines, r, c), Ring(r, c));
    }
  }

  /** The worked example of the source's documentation: a 3 x 3 board with
      mines at (0, 0), (1, 2) and (2, 2). */
  lemma GoldenInfoBoard()
    ensures var mines := [(0, 0), (1, 2), (2, 2)];
            var expected := [[-1, 2, 1], [1, 3, -1], [0, 2, -1]];
            forall r, c | 0 <= r < 3 && 0 <= c < 3 :: InfoValue(mines, r, c) == expected[r][c]
  {
    var mines := [(0, 0), (1, 2), (2, 2)];
    assert mines[..2] == [(0, 0), (1, 2)];
    assert mines[..2][..1] == [(0, 0)];
    assert mines[..2][..1][..0] == mines[..0];
    forall r, c | 0 <= r < 3 && 0 <= c < 3
      ensures NearCount(mines, r, c) == (if Adjacent((0, 0), r, c) then 1 else 0) +
        (if Adjacent((1, 2), r, c) then 1 else 0) + (if Adjacent((2, 2), r, c) then 1 else 0)
    {
      assert NearCount(mines[..2][..1], r, c) == (if Adjacent((0, 0), r, c) then 1 else 0);
    }
  }
}
